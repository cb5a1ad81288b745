/**
 * The template body as an ordered list of steps run against the project
 * directory. A command under safe_run reports a failure as a warning and
 * the run goes on; an exception raised anywhere else escapes, and nothing
 * after it runs.
 */
module Pipeline {
  import opened Wrappers
  import opened RubyText
  import opened Console
  import opened ProjectFiles
  import opened Entrypoint
  import opened GitHub

  /**
   * One step of the template. For a command, `raised` is the message of the
   * exception it raises, or None, and `writes` are the files it creates or
   * overwrites when it succeeds; both are decided outside the template.
   */
  datatype Step =
    | SafeRun(command: string, writes: FileMap, raised: Option<string>)
    | Tool(name: string, writes: FileMap, raised: Option<string>)   // generate, rails_command, git :init, ...
    | AppendOnceStep(path: Path, content: string)
    | GsubStep(path: Path, pattern: string, replacement: string)
    | GsubWholeStep(path: Path, replacement: string)
    | CreateStep(path: Path, body: string)
    | RemoveStep(path: Path)
    | MountStep
    | GitHubStep(env: GitHubEnv, raised: Option<string>)

  /** The project files, the console log, and the exception that ended the run, if one did. */
  datatype State = State(files: FileMap, log: seq<Status>, failure: Option<Failure>)

  /** The new files of an action, or the run stopped with the action's failure. */
  function Apply(st: State, r: Outcome): State {
    match r
    case Done(files) => st.(files := files)
    case Aborted(f) => st.(failure := Some(f))
  }

  /**
   * One step; once an exception has escaped, nothing runs. A step only adds
   * to the log, and only a step outside safe_run can stop the run.
   */
  function Exec(st: State, step: Step): (r: State)
    ensures st.log <= r.log
    ensures st.failure.Some? ==> r == st
    ensures r.failure.Some? && st.failure.None? ==> !Rescued(step)
  {
    if st.failure.Some? then st
    else match step
      case SafeRun(command, writes, raised) =>
        State(if raised.None? then st.files + writes else st.files,
              st.log + SafeRunLog(command, raised), None)
      case Tool(name, writes, raised) =>
        if raised.Some? then State(st.files, st.log + [Run(name)], Some(Raised(name, raised.value)))
        else State(st.files + writes, st.log + [Run(name)], None)
      case AppendOnceStep(path, content) => Apply(st, AppendOnce(st.files, path, content))
      case GsubStep(path, pattern, replacement) => Apply(st, GsubLiteral(st.files, path, pattern, replacement))
      case GsubWholeStep(path, replacement) => Apply(st, GsubWhole(st.files, path, replacement))
      case CreateStep(path, body) => st.(files := CreateFile(st.files, path, body))
      case RemoveStep(path) => st.(files := RemoveFile(st.files, path))
      case MountStep => Apply(st, MountEntrypoint(st.files))
      case GitHubStep(env, raised) => st.(log := st.log + RepoLog(env, raised))
  }

  /** The steps in order: the log only grows, and a failure, once set, stays. */
  function Execute(st: State, steps: seq<Step>): (r: State)
    ensures st.log <= r.log
    ensures st.failure.Some? ==> r.failure.Some?
    decreases |steps|
  {
    if steps == [] then st else Execute(Exec(st, steps[0]), steps[1..])
  }

  /** A step no exception escapes from: safe_run, and the GitHub block, whose one command runs under safe_run. */
  predicate Rescued(step: Step) {
    step.SafeRun? || step.GitHubStep?
  }

  /** The commands of a list of safe_run steps, in order. */
  function StepCommands(steps: seq<Step>): (cs: seq<string>)
    requires forall i :: 0 <= i < |steps| ==> steps[i].SafeRun?
    ensures |cs| == |steps|
    ensures forall i :: 0 <= i < |steps| ==> cs[i] == steps[i].command
  {
    if steps == [] then [] else [steps[0].command] + StepCommands(steps[1..])
  }

  /** How many of the steps raise. */
  function RaisedCount(steps: seq<Step>): (n: nat)
    requires forall i :: 0 <= i < |steps| ==> steps[i].SafeRun?
    ensures n <= |steps|
  {
    if steps == [] then 0 else (if steps[0].raised.Some? then 1 else 0) + RaisedCount(steps[1..])
  }

  /** After an escaped exception, the rest of the template does nothing. */
  lemma {:induction false} ExecuteAfterFailure(st: State, steps: seq<Step>)
    requires st.failure.Some?
    ensures Execute(st, steps) == st
    decreases |steps|
  {
    if steps != [] {
      ExecuteAfterFailure(Exec(st, steps[0]), steps[1..]);
    }
  }

  /** Running a + b is running a and then b. */
  lemma {:induction false} ExecuteAppend(st: State, a: seq<Step>, b: seq<Step>)
    ensures Execute(st, a + b) == Execute(Execute(st, a), b)
    decreases |a|
  {
    if a == [] {
      assert a + b == b;
    } else {
      assert (a + b)[0] == a[0];
      assert (a + b)[1..] == a[1..] + b;
      ExecuteAppend(Exec(st, a[0]), a[1..], b);
    }
  }

  /** A rescued step never sets the failure: the run goes on after it whatever it raised. */
  lemma RescuedContinues(st: State, step: Step)
    requires st.failure.None? && Rescued(step)
    ensures Exec(st, step).failure.None?
    ensures Commands(Exec(st, step).log) == Commands(st.log) + (
      if step.SafeRun? then [step.command] else Commands(RepoLog(step.env, step.raised)))
  {
    if step.SafeRun? {
      assert Exec(st, step).log == st.log + SafeRunLog(step.command, step.raised);
      CommandsAppend(st.log, SafeRunLog(step.command, step.raised));
      SafeRunReports(step.command, step.raised);
    } else {
      assert Exec(st, step).log == st.log + RepoLog(step.env, step.raised);
      CommandsAppend(st.log, RepoLog(step.env, step.raised));
    }
  }

  /**
   * A run of N safe_run steps reaches its end whatever the commands raise:
   * it runs all N commands, in order, and logs exactly one warning for each
   * command that raised.
   */
  lemma {:induction false} SafeRunsComplete(st: State, steps: seq<Step>)
    requires st.failure.None?
    requires forall i :: 0 <= i < |steps| ==> steps[i].SafeRun?
    ensures var end := Execute(st, steps);
      && end.failure.None?
      && Commands(end.log) == Commands(st.log) + StepCommands(steps)
      && WarnCount(end.log) == WarnCount(st.log) + RaisedCount(steps)
    decreases |steps|
  {
    if steps != [] {
      var s := steps[0];
      var next := Exec(st, s);
      CommandsAppend(st.log, SafeRunLog(s.command, s.raised));
      SafeRunReports(s.command, s.raised);
      SafeRunsComplete(next, steps[1..]);
      ConcatAssoc(Commands(st.log), [s.command], StepCommands(steps[1..]));
    }
  }

  /**
   * An exception outside safe_run ends the template: the failing step is the
   * last thing that happens.
   */
  lemma EscapedStops(st: State, step: Step, rest: seq<Step>)
    requires Exec(st, step).failure.Some?
    ensures Execute(st, [step] + rest) == Exec(st, step)
  {
    assert ([step] + rest)[1..] == rest;
    ExecuteAfterFailure(Exec(st, step), rest);
  }

  /**
   * An append_once step run a second time changes nothing, whether the first
   * run appended, found the text already there, or stopped the run.
   */
  lemma AppendOnceStepTwice(st: State, path: Path, content: string)
    ensures var once := Exec(st, AppendOnceStep(path, content));
      Exec(once, AppendOnceStep(path, content)) == once
  {
    AppendOnceIdempotent(st.files, path, content);
  }

  /** The entrypoint step run a second time changes nothing either. */
  lemma MountStepTwice(st: State)
    ensures var once := Exec(st, MountStep);
      Exec(once, MountStep) == once
  {
    MountEntrypointIdempotent(st.files);
  }

  const RubocopCommand: string :=
    "curl -L https://raw.githubusercontent.com/lewagon/rails-templates/master/.rubocop.yml > .rubocop.yml"
  const CommitPrefix: string := "git commit -m \"Initial commit: "
  const CommitSuffix: string :=
    " (Rails + Tailwind + Vite/React/TS + Devise + Pundit + Sidekiq + PaperTrail) template\""

  /** The first commit's command, with the title interpolated. */
  function CommitCommand(title: string): string {
    CommitPrefix + title + CommitSuffix
  }

  /** The commit message names the project by its title. */
  lemma CommitNamesTitle(title: string)
    ensures Contains(CommitCommand(title), title)
  {
    assert CommitCommand(title)[|CommitPrefix|..] == title + CommitSuffix;
    assert StartsWith(CommitCommand(title)[|CommitPrefix|..], title);
  }

  /** The outcomes of the finalizing commands, decided outside the template. */
  datatype FinalizeOutcomes = FinalizeOutcomes(
    rubocop: Option<string>, rubocopWrites: FileMap,
    init: Option<string>,
    add: Option<string>, commit: Option<string>, branch: Option<string>)

  /** The three git commands after `git init`, each under safe_run. */
  function CommitSteps(title: string, o: FinalizeOutcomes): seq<Step> {
    [ SafeRun("git add .", map[], o.add),
      SafeRun(CommitCommand(title), map[], o.commit),
      SafeRun("git branch -M main", map[], o.branch) ]
  }

  /**
   * The last steps before the GitHub block: fetch .rubocop.yml, git init,
   * add, commit, name the branch. `git init` is the one step not under safe_run.
   */
  function FinalizeSteps(title: string, o: FinalizeOutcomes): (steps: seq<Step>)
    ensures |steps| == 5
    ensures forall i :: 0 <= i < 5 ==> (steps[i].SafeRun? <==> i != 1)
    ensures steps[1] == Tool("git init", map[], o.init)
  {
    [SafeRun(RubocopCommand, o.rubocopWrites, o.rubocop)]
      + ([Tool("git init", map[], o.init)] + CommitSteps(title, o))
  }

  /** The state after fetching .rubocop.yml, which cannot stop the run. */
  lemma {:induction false} AfterRubocop(st: State, title: string, o: FinalizeOutcomes)
    requires st.failure.None?
    ensures var mid := Exec(st, SafeRun(RubocopCommand, o.rubocopWrites, o.rubocop));
      && mid.failure.None?
      && Commands(mid.log) == Commands(st.log) + [RubocopCommand]
      && WarnCount(mid.log) == WarnCount(st.log) + (if o.rubocop.Some? then 1 else 0)
      && Execute(st, FinalizeSteps(title, o)) ==
           Execute(Exec(mid, Tool("git init", map[], o.init)), CommitSteps(title, o))
  {
    var r := SafeRun(RubocopCommand, o.rubocopWrites, o.rubocop);
    var rest := [Tool("git init", map[], o.init)] + CommitSteps(title, o);
    assert FinalizeSteps(title, o)[1..] == rest;
    assert rest[1..] == CommitSteps(title, o);
    RescuedContinues(st, r);
    CommandsAppend(st.log, SafeRunLog(RubocopCommand, o.rubocop));
    SafeRunReports(RubocopCommand, o.rubocop);
  }

  /**
   * When `git init` raises nothing, the finalizing steps all run, in order,
   * whatever the four safe_run commands raise, and one warning is logged for
   * each of them that raised.
   */
  lemma {:induction false} FinalizeRuns(st: State, title: string, o: FinalizeOutcomes)
    requires st.failure.None? && o.init.None?
    ensures var end := Execute(st, FinalizeSteps(title, o));
      && end.failure.None?
      && Commands(end.log) == Commands(st.log) +
           [RubocopCommand, "git init", "git add .", CommitCommand(title), "git branch -M main"]
      && WarnCount(end.log) == WarnCount(st.log)
           + (if o.rubocop.Some? then 1 else 0) + (if o.add.Some? then 1 else 0)
           + (if o.commit.Some? then 1 else 0) + (if o.branch.Some? then 1 else 0)
  {
    var mid := Exec(st, SafeRun(RubocopCommand, o.rubocopWrites, o.rubocop));
    AfterRubocop(st, title, o);
    InitThenCommit(mid, title, o);
    FiveItems(Commands(st.log), RubocopCommand, "git init",
      ["git add .", CommitCommand(title), "git branch -M main"]);
  }

  /** From `git init` on, when it raises nothing: init, add, commit and branch all run. */
  lemma InitThenCommit(mid: State, title: string, o: FinalizeOutcomes)
    requires mid.failure.None? && o.init.None?
    ensures var end := Execute(Exec(mid, Tool("git init", map[], o.init)), CommitSteps(title, o));
      && end.failure.None?
      && Commands(end.log) == Commands(mid.log) + ["git init"]
           + ["git add .", CommitCommand(title), "git branch -M main"]
      && WarnCount(end.log) == WarnCount(mid.log)
           + (if o.add.Some? then 1 else 0) + (if o.commit.Some? then 1 else 0)
           + (if o.branch.Some? then 1 else 0)
  {
    var inited := Exec(mid, Tool("git init", map[], o.init));
    assert inited.failure.None? && Commands(inited.log) == Commands(mid.log) + ["git init"]
      && WarnCount(inited.log) == WarnCount(mid.log) by {
      CommandsAppend(mid.log, [Run("git init")]);
      assert Commands([Run("git init")]) == ["git init"];
      assert WarnCount([Run("git init")]) == 0;
    }
    var c := CommitSteps(title, o);
    assert StepCommands(c) == ["git add .", CommitCommand(title), "git branch -M main"];
    CommitWarnings(title, o);
    SafeRunsComplete(inited, c);
  }

  /** One raise is counted for each of add, commit and branch that raises. */
  lemma CommitWarnings(title: string, o: FinalizeOutcomes)
    ensures RaisedCount(CommitSteps(title, o)) == (if o.add.Some? then 1 else 0)
      + (if o.commit.Some? then 1 else 0) + (if o.branch.Some? then 1 else 0)
  {
    var c := CommitSteps(title, o);
    assert c[1..][1..][1..] == [];
    assert RaisedCount(c[1..][1..]) == (if o.branch.Some? then 1 else 0);
    assert RaisedCount(c[1..]) == (if o.commit.Some? then 1 else 0) + (if o.branch.Some? then 1 else 0);
  }

  /** Sequence algebra kept apart from the step functions. */
  lemma FiveItems<T>(c: seq<T>, a: T, b: T, xs: seq<T>)
    requires |xs| == 3
    ensures c + [a] + [b] + xs == c + [a, b, xs[0], xs[1], xs[2]]
  {
  }

  /**
   * `git init` is the one finalizing step outside safe_run: when it raises,
   * the run stops there and add, commit and branch never run.
   */
  lemma {:induction false} FinalizeStopsAtInit(st: State, title: string, o: FinalizeOutcomes)
    requires st.failure.None? && o.init.Some?
    ensures var end := Execute(st, FinalizeSteps(title, o));
      && end.failure == Some(Raised("git init", o.init.value))
      && Commands(end.log) == Commands(st.log) + [RubocopCommand, "git init"]
  {
    var mid := Exec(st, SafeRun(RubocopCommand, o.rubocopWrites, o.rubocop));
    AfterRubocop(st, title, o);
    var stopped := Exec(mid, Tool("git init", map[], o.init));
    ExecuteAfterFailure(stopped, CommitSteps(title, o));
    CommandsAppend(mid.log, [Run("git init")]);
    assert Commands([Run("git init")]) == ["git init"];
  }

  /**
   * The project directory with the console log, changed step by step in
   * place as the template runs.
   */
  class Project {
    var files: FileMap
    var log: seq<Status>
    var failure: Option<Failure>

    function Snapshot(): State
      reads this
    {
      State(files, log, failure)
    }

    constructor(initial: FileMap)
      ensures Snapshot() == State(initial, [], None)
    {
      files := initial;
      log := [];
      failure := None;
    }

    /** safe_run: log the command, run it, and turn what it raises into a warning. */
    method SafeRunCommand(command: string, writes: FileMap, raised: Option<string>)
      modifies this
      ensures Snapshot() == Exec(old(Snapshot()), SafeRun(command, writes, raised))
    {
      if failure.Some? {
        return;
      }
      log := log + [Run(command)];
      match raised {
        case None =>
          files := files + writes;
        case Some(message) =>
          log := log + [Warn(FailurePrefix + message)];
      }
    }

    /** A Rails, Thor or git action outside safe_run: what it raises ends the run. */
    method RunTool(name: string, writes: FileMap, raised: Option<string>)
      modifies this
      ensures Snapshot() == Exec(old(Snapshot()), Tool(name, writes, raised))
    {
      if failure.Some? {
        return;
      }
      log := log + [Run(name)];
      match raised {
        case None =>
          files := files + writes;
        case Some(message) =>
          failure := Some(Raised(name, message));
      }
    }

    /** append_once on the project files. */
    method AppendOnceTo(path: Path, content: string)
      modifies this
      ensures Snapshot() == Exec(old(Snapshot()), AppendOnceStep(path, content))
    {
      if failure.Some? {
        return;
      }
      assert Exec(Snapshot(), AppendOnceStep(path, content)) == Apply(Snapshot(), AppendOnce(files, path, content));
      if path in files && Contains(files[path], Strip(content)) {
        return;
      }
      if path !in files {
        failure := Some(MissingFile(path));
      } else {
        files := files[path := files[path] + content];
      }
    }

    /** gsub_file with a literal pattern. */
    method GsubFile(path: Path, pattern: string, replacement: string)
      modifies this
      ensures Snapshot() == Exec(old(Snapshot()), GsubStep(path, pattern, replacement))
      ensures old(failure).None? && path in old(files) ==>
        path in files && files[path] == ReplaceAll(old(files)[path], pattern, replacement)
    {
      if failure.Some? {
        return;
      }
      if path !in files {
        failure := Some(MissingFile(path));
      } else {
        files := files[path := ReplaceAll(files[path], pattern, replacement)];
      }
    }

    /** gsub_file with /\A[\s\S]*\z/: the whole file becomes the replacement. */
    method GsubWholeFile(path: Path, replacement: string)
      modifies this
      ensures Snapshot() == Exec(old(Snapshot()), GsubWholeStep(path, replacement))
    {
      if failure.Some? {
        return;
      }
      if path !in files {
        failure := Some(MissingFile(path));
      } else {
        files := files[path := replacement];
      }
    }

    /** file (create_file). */
    method Create(path: Path, body: string)
      modifies this
      ensures Snapshot() == Exec(old(Snapshot()), CreateStep(path, body))
    {
      if failure.None? {
        files := files[path := body];
      }
    }

    /** remove_file. */
    method Remove(path: Path)
      modifies this
      ensures Snapshot() == Exec(old(Snapshot()), RemoveStep(path))
    {
      if failure.None? {
        files := files - {path};
      }
    }

    /** The entrypoint branch: application.js, else application.tsx, else a new application.js. */
    method MountReact()
      modifies this
      ensures Snapshot() == Exec(old(Snapshot()), MountStep)
    {
      if failure.Some? {
        return;
      }
      if EntrypointJs in files {
        files := files[EntrypointJs := MountScript];
      } else if EntrypointTsx in files {
        files := files[EntrypointTsx := MountScript];
      } else {
        files := files[EntrypointJs := MountScript];
      }
    }

    /** The GitHub block: create the repository with gh, or print the hints. */
    method PublishRepo(env: GitHubEnv, raised: Option<string>)
      modifies this
      ensures Snapshot() == Exec(old(Snapshot()), GitHubStep(env, raised))
    {
      if failure.Some? {
        return;
      }
      assert Exec(Snapshot(), GitHubStep(env, raised)) == Snapshot().(log := log + RepoLog(env, raised));
      RepoLogEntries(env, raised);
      if env.ghExists {
        var command := CreateCommand(RepoTarget(env.owner, env.repoName));
        log := log + ([Info(CreatingMessage)] + SafeRunLog(command, raised));
      } else if !Contains(env.remotes, "origin") {
        log := log + [Warn(NoGhMessage), Hint(HintIntro), Hint(RemoteLine(env.owner, env.repoName)), Hint(HintPush)];
      } else {
        log := log + [Warn(NoGhMessage)];
      }
    }

    /** One step of the template. */
    method Step(step: Step)
      modifies this
      ensures Snapshot() == Exec(old(Snapshot()), step)
    {
      match step {
        case SafeRun(command, writes, raised) => SafeRunCommand(command, writes, raised);
        case Tool(name, writes, raised) => RunTool(name, writes, raised);
        case AppendOnceStep(path, content) => AppendOnceTo(path, content);
        case GsubStep(path, pattern, replacement) => GsubFile(path, pattern, replacement);
        case GsubWholeStep(path, replacement) => GsubWholeFile(path, replacement);
        case CreateStep(path, body) => Create(path, body);
        case RemoveStep(path) => Remove(path);
        case MountStep => MountReact();
        case GitHubStep(env, raised) => PublishRepo(env, raised);
      }
    }

    /**
     * The template: the steps in order, stopping at the first exception that
     * escapes.
     */
    method RunSteps(steps: seq<Step>)
      modifies this
      ensures Snapshot() == Execute(old(Snapshot()), steps)
    {
      var i := 0;
      while i < |steps| && failure.None?
        invariant 0 <= i <= |steps|
        invariant Execute(Snapshot(), steps[i..]) == Execute(old(Snapshot()), steps)
      {
        assert steps[i..][1..] == steps[i + 1..];
        Step(steps[i]);
        i := i + 1;
      }
      if i < |steps| {
        ExecuteAfterFailure(Snapshot(), steps[i..]);
      }
    }
  }
}
