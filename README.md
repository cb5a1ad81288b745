# rails_vite_template.rb, modelled in Dafny

`rails_vite_template.rb` is a Rails application template: `rails new ... -m
rails_vite_template.rb` runs it in the freshly generated project directory.
It adds gems, rewrites a few generated files, sets up Vite with React, writes
a README, commits everything and, when the GitHub CLI is available, creates a
private GitHub repository.

This project models the template's own logic. Everything it calls in Rails,
Thor, npm and git is an opaque step. The project directory is a map from
path to content, and the template is an ordered list of steps over that map
and a console log.

- `RubyText` (ruby_text.dfy): the Ruby string operations the template relies
  on. These are `gsub` with a character class, `split("_")`, `split(/\s+/)`,
  `capitalize`, `join`, `strip`, `include?`, and `gsub` with a String
  pattern.
- `Naming` and `NamingExamples` (naming.dfy): `app_const_name` and
  `app_display_name`, what they produce in general, and worked examples.
- `ProjectFiles` (files.dfy): the file actions on the map.
  - `append_file` and the template's `append_once` guard.
  - `gsub_file` with a literal pattern, and with the whole-file regex
    `/\A[\s\S]*\z/`.
  - `file` and `remove_file`.
- `Console` (console.dfy): `say_status` lines and the log of `safe_run`.
- `Entrypoint` (entrypoint.dfy): the three-way choice of the Vite entrypoint
  file, and the React mount script written into it.
- `TemplateEdits` (edits.dfy): the template's concrete literal `gsub_file`
  edits.
- `GitHub` (github.dfy): the choice between `gh repo create` and the manual
  hints.
- `Pipeline` (pipeline.dfy):
  - the steps and their effect (`Exec`, `Execute`);
  - the finalizing git commands;
  - the class `Project`, whose methods update the files, the log and the
    escaped exception in place, and whose `RunSteps` loop runs a list of
    steps.

Behaviour a reader might not expect, which the model follows:

- The title keeps underscores. `_` is in the kept class `[a-zA-Z0-9_]`, so
  "my_cool_app" gives the title "My_cool_app", not "My Cool App".
- `split(/\s+/)` keeps a leading empty field, so "-app" gives the title
  " App", with a leading space.
- Only `safe_run` rescues. An exception raised by `gsub_file` or
  `append_file` on a missing file, or by a Rails, Thor or git action that is
  not wrapped in `safe_run`, escapes and ends the template. `Exec` records
  it as the run's `failure`, and no later step runs.
- `gsub_file` with a String pattern replaces every occurrence. A missing
  pattern leaves the file unchanged rather than failing.
- The template's three literal edits whose replacement begins with the
  pattern (the Pundit hooks, the Rack::Attack middleware line, the mount
  div after `<body>`) are not idempotent: run twice, each inserts its text a
  second time.
- The owner of the GitHub repository comes from the environment variable
  GITHUB_OWNER. `gh` receives it only when it is non-blank after `strip`.
  The hint's remote URL uses it whenever it is set, even when it is blank.

## Model

| member | source | states |
|---|---|---|
| RubyText.Capitalize | rails_vite_template.rb:30 | `capitalize` keeps the length and the letters up to case: the first character is not lower case and no later character is upper case |
| RubyText.ReplaceNonWord | rails_vite_template.rb:29 | `gsub(/[^a-zA-Z0-9_]/, r)` keeps the length, keeps every character of `[a-zA-Z0-9_]` and turns every other one into `r` |
| RubyText.Split | rails_vite_template.rb:30 | `split("_")` gives fields none of which holds `_`, with no empty field at the end |
| RubyText.SplitSpaces | rails_vite_template.rb:35 | `split(/\s+/)` gives words without whitespace, of which only the first can be empty |
| RubyText.Strip | rails_vite_template.rb:23 | `strip` cuts only whitespace and NUL from the two ends and keeps everything between them, leaving none at either end |
| RubyText.StripIsInfix | rails_vite_template.rb:23 | `content.strip` is no longer than `content` and occurs inside it |
| RubyText.JoinSplitSpaces | rails_vite_template.rb:35 | `split(/\s+/)` followed by `join(" ")` collapses every run of whitespace to one space and drops a trailing run |
| RubyText.SqueezeShape | rails_vite_template.rb:35 | that squeezed text has single spaces only, never two in a row, never a trailing one, and no other character that was not in the input |
| RubyText.ReplaceAllAbsent | rails_vite_template.rb:152-166 | a String-pattern `gsub` whose pattern does not occur returns the text unchanged |
| RubyText.ReplaceAllPresent | rails_vite_template.rb:198-200 | once the pattern occurs, the `gsub` result contains the replacement |
| RubyText.ReplaceAllGrows | rails_vite_template.rb:260-262 | a replacement that begins with its pattern never shrinks the text, and grows it by the extension when the pattern occurs |
| RubyText.ReplaceAllNotIdempotent | rails_vite_template.rb:198-200 | with such a replacement, a second `gsub` grows the text again by at least the extension |
| RubyText.FirstAtExists | rails_vite_template.rb:198-200 | a text that contains the pattern has exactly one first match |
| RubyText.ReplaceAllAtFirst | rails_vite_template.rb:152-166 | String-pattern `gsub` keeps the text before the first match, puts the replacement in place of that match, and then does the same to the rest of the text, so every later occurrence is replaced too |
| RubyText.ReplaceAllKeepsPrefix | rails_vite_template.rb:152-166 | text in which no match starts comes through `gsub` unchanged, and the scan goes on after it |
| RubyText.ReplaceAllSkipsInert | rails_vite_template.rb:198-200 | text inside which no match can start, whatever follows it, comes through `gsub` unchanged |
| RubyText.ReplaceAllTwice | rails_vite_template.rb:260-262 | with a replacement `pat + tail` whose tail cannot hold the start of a match, one `gsub` puts `pat + tail` at the first match and a second puts `pat + tail + tail` there, keeping the text before it |
| Naming.AlnumOnly | rails_vite_template.rb:29 | the ASCII letters and digits of a name, in order; every character of the result is alphanumeric |
| Naming.ConstNameKeepsAlnum | rails_vite_template.rb:28-31 | up to letter case, `app_const_name` is exactly the letters and digits of the directory name, in order; every other character, `_` included, disappears |
| Naming.ConstNameIsAlnum | rails_vite_template.rb:28-31 | `app_const_name` consists of ASCII letters and digits only |
| Naming.DisplayNameSqueezes | rails_vite_template.rb:33-36 | up to letter case, `app_display_name` is the name with every character outside `[a-zA-Z0-9_]` turned into a space, with runs of spaces collapsed and a trailing space dropped |
| Naming.DisplayNameShape | rails_vite_template.rb:33-36 | the title holds only `[A-Za-z0-9_ ]`, never two spaces in a row, and never a trailing space |
| NamingExamples.ConstNameUnderscored | rails_vite_template.rb:28-31 | "my_cool_app" gives MyCoolApp |
| NamingExamples.ConstNameDashed | rails_vite_template.rb:28-31 | "my-cool-app" gives MyCoolApp |
| NamingExamples.DisplayNameDashed | rails_vite_template.rb:33-36 | "my-cool-app" gives the title "My Cool App" |
| NamingExamples.DisplayNameUnderscored | rails_vite_template.rb:33-36 | "my_cool_app" gives the title "My_cool_app", because underscores survive |
| NamingExamples.DisplayNameLeadingSpace | rails_vite_template.rb:33-36 | "-app" gives " App", because `split(/\s+/)` keeps a leading empty field |
| NamingExamples.PlainName | rails_vite_template.rb:28-36 | "app" gives App as both the constant and the title |
| ProjectFiles.AppendFile | rails_vite_template.rb:24 | `append_file` fails exactly on a missing file; otherwise only that file changes, and it becomes old content + text |
| ProjectFiles.AppendOnce | rails_vite_template.rb:22-26 | `append_once` never adds a file, and the only exception it raises is the one for its own missing file |
| ProjectFiles.AppendOnceEffect | rails_vite_template.rb:22-26 | `append_once` fails exactly on a missing file. It leaves the files untouched exactly when the file already contains `content.strip`. Otherwise the old content stays a prefix and every other file is unchanged |
| ProjectFiles.AppendOnceEstablishes | rails_vite_template.rb:22-26 | after `append_once` succeeds, the file contains `content.strip` |
| ProjectFiles.AppendOnceIdempotent | rails_vite_template.rb:22-26 | a second `append_once` with the same text changes nothing |
| ProjectFiles.GsubLiteral | rails_vite_template.rb:152-166 | a literal `gsub_file` fails exactly on a missing file, changes no other file, and leaves its file as String-pattern `gsub` of every occurrence |
| ProjectFiles.GsubLiteralEffect | rails_vite_template.rb:260-262 | a literal `gsub_file` leaves the files as they were when the pattern is absent. When it is present, the file holds the replacement, and the file is its text up to the first match, then the replacement, then the rest with every occurrence replaced |
| ProjectFiles.GsubLiteralNotIdempotent | rails_vite_template.rb:198-200 | a literal `gsub_file` whose replacement begins with its pattern grows the file on every run; the second run differs from the first |
| ProjectFiles.GsubLiteralTwice | rails_vite_template.rb:198-200 | the exact file after one and after two runs of a `gsub_file` whose replacement is the pattern plus an inert tail: the second run puts the tail a second time right after the first match |
| ProjectFiles.GsubLiteralRepeats | rails_vite_template.rb:198-200 | after two such runs, the file holds pattern + tail + tail, at the first match of the original file, with the text before it unchanged |
| ProjectFiles.GsubWhole | rails_vite_template.rb:212-221 | `gsub_file` with `/\A[\s\S]*\z/` fails exactly on a missing file; otherwise the file becomes the replacement whatever it held, and no other file changes |
| ProjectFiles.GsubWholeIdempotent | rails_vite_template.rb:212-221 | replacing the whole file twice is the same as once |
| ProjectFiles.CreateFile | rails_vite_template.rb:235-244 | `file` leaves the path holding exactly the body, adds only that path, and changes no other file |
| ProjectFiles.RemoveFile | rails_vite_template.rb:126 | `remove_file` removes only that path, and a missing path is no error |
| Console.SafeRunReports | rails_vite_template.rb:15-20 | `safe_run` logs its command once. It logs exactly one warning when the command raised, carrying the exception's message, and none otherwise |
| Console.SafeRunLog | rails_vite_template.rb:15-20 | `safe_run` logs its :run line first, then one line more exactly when the command raised |
| Entrypoint.TargetChoice | rails_vite_template.rb:211-244 | application.js is chosen whenever it exists. application.tsx is chosen exactly when it is the only one of the two present. Otherwise application.js is chosen |
| Entrypoint.EntrypointTarget | rails_vite_template.rb:211-244 | the target is application.js or application.tsx, and a file that does not exist only when it is application.js |
| Entrypoint.MountEntrypoint | rails_vite_template.rb:208-244 | the entrypoint step never fails and leaves the mount script in the target |
| Entrypoint.MountEntrypointEffect | rails_vite_template.rb:208-244 | the entrypoint step never fails and writes exactly one file, the chosen one, which then equals the mount script. Every other file is unchanged. A file is created only when neither entrypoint existed |
| Entrypoint.MountEntrypointIdempotent | rails_vite_template.rb:208-244 | running the entrypoint step twice is the same as once |
| Entrypoint.UniqueMarker | rails_vite_template.rb:216-218 | a pattern whose marker character occurs only where the pattern and one decoy have it occurs exactly once in the text |
| Entrypoint.MountIdOnce | rails_vite_template.rb:212-221 | the mount script contains "react-root" exactly once |
| Entrypoint.MountedOnce | rails_vite_template.rb:208-244 | after the step, the written entrypoint contains "react-root" exactly once |
| TemplateEdits.BodyGetsMountNode | rails_vite_template.rb:260-262 | on a layout that has `<body>`, the edit leaves `<body>` followed by the mount div in the layout, and the div's id is the one the mount script looks up |
| TemplateEdits.MountDivInert | rails_vite_template.rb:260-262 | no `<body>` can start inside the mount div, whatever follows it |
| TemplateEdits.BodyEditNotIdempotent | rails_vite_template.rb:260-262 | run twice, the `<body>` edit leaves `<body>` followed by two mount divs at the first `<body>`, with the text before it unchanged, and the layout grows by at least one more div |
| TemplateEdits.RackAttackLineInert | rails_vite_template.rb:198-200 | no Application class line can start inside the middleware line |
| TemplateEdits.RackAttackEditNotIdempotent | rails_vite_template.rb:198-200 | run twice, the Rack::Attack edit leaves the class line followed by the middleware line twice, at the first class line, with the text before it unchanged |
| TemplateEdits.PunditHooksInert | rails_vite_template.rb:152-166 | no ApplicationController class line can start inside the Pundit hooks |
| TemplateEdits.PunditEditNotIdempotent | rails_vite_template.rb:152-166 | run twice, the Pundit edit leaves the class line followed by the hooks twice, at the first class line, with the text before it unchanged |
| TemplateEdits.PunditOnWrittenController | rails_vite_template.rb:126-166 | on the controller the template wrote, the Pundit edit matches once. The file becomes the hooks followed by the rest of that controller, so `before_action :authenticate_user!` is there twice |
| GitHub.RepoTargetChoice | rails_vite_template.rb:440-448 | the `gh` target is "owner/repo" exactly when the owner is set and non-blank after strip; otherwise it is the bare directory name |
| GitHub.RepoTarget | rails_vite_template.rb:440-446 | the `gh` target ends with the directory name, and begins with "owner/" when the owner is usable |
| GitHub.RemoteLine | rails_vite_template.rb:454 | the hint's remote line begins with `git remote add origin git@github.com:`, then owner and a slash whenever the owner is set (even blank) and nothing when it is unset, and ends with the directory name and ".git" |
| GitHub.Plan | rails_vite_template.rb:438-455 | the block either runs a `gh repo create` command or prints three hints or none |
| GitHub.RepoLog | rails_vite_template.rb:438-455 | the block's log begins with its :info line or its :warn line |
| GitHub.PlanChoice | rails_vite_template.rb:438-455 | `gh repo create` runs exactly when `gh` exists, on that target. The hints are printed exactly when `gh` is missing and the `git remote` output does not contain "origin" |
| GitHub.RepoLogShape | rails_vite_template.rb:438-455 | with `gh`, the block logs an :info line and runs the create command and nothing else. Without `gh`, it logs a :warn line, runs no command, and logs either three hints or none |
| GitHub.BlankOwnerInHint | rails_vite_template.rb:454 | a set but blank owner is dropped from the `gh` target, yet the hint's URL still puts it and a slash before the repository name |
| Pipeline.ExecuteAfterFailure | rails_vite_template.rb:15-20 | once an exception has escaped, no later step does anything |
| Pipeline.Exec | rails_vite_template.rb:15-20 | a step only adds to the log, does nothing once the run has stopped, and can stop the run only when it is not under `safe_run` |
| Pipeline.Execute | rails_vite_template.rb:102-458 | running steps only adds to the log, and a run that has stopped stays stopped |
| Pipeline.ExecuteAppend | rails_vite_template.rb:102-458 | running two lists of steps one after the other is running them joined |
| Pipeline.RescuedContinues | rails_vite_template.rb:15-20 | a `safe_run` step, or the GitHub block, never stops the run, and it adds exactly its own commands to the log |
| Pipeline.StepCommands | rails_vite_template.rb:427-433 | the commands of a list of `safe_run` steps: one per step, in order |
| Pipeline.RaisedCount | rails_vite_template.rb:427-433 | the number of `safe_run` steps that raise, which is at most the number of steps |
| Pipeline.SafeRunsComplete | rails_vite_template.rb:15-20 | a run of N `safe_run` steps always reaches its end. It runs all N commands in order and logs one warning for each command that raised |
| Pipeline.EscapedStops | rails_vite_template.rb:430 | an exception outside `safe_run` makes the failing step the last thing that happens |
| Pipeline.AppendOnceStepTwice | rails_vite_template.rb:114 | an `append_once` step run a second time changes nothing, whatever the first run did |
| Pipeline.MountStepTwice | rails_vite_template.rb:208-244 | the entrypoint step run a second time changes nothing |
| Pipeline.CommitNamesTitle | rails_vite_template.rb:432 | the first commit's message contains the title |
| Pipeline.FinalizeSteps | rails_vite_template.rb:427-433 | the finalizing steps are five, and `git init`, the second, is the only one not under `safe_run` |
| Pipeline.AfterRubocop | rails_vite_template.rb:427 | fetching .rubocop.yml never stops the run and logs its command |
| Pipeline.FinalizeRuns | rails_vite_template.rb:427-433 | when `git init` raises nothing, the run goes on to the end: rubocop fetch, init, add, commit and branch run in that order, whatever the four `safe_run` commands raise, and one warning is logged for each of them that raised |
| Pipeline.InitThenCommit | rails_vite_template.rb:430-433 | from `git init` on, when it raises nothing: init, add, commit and branch run in order, with one warning for each of the last three that raised |
| Pipeline.CommitWarnings | rails_vite_template.rb:431-433 | one raise is counted for each of add, commit and branch that raises |
| Pipeline.FinalizeStopsAtInit | rails_vite_template.rb:430-433 | when `git init` raises, the run stops there and add, commit and branch never run |
| Pipeline.Project.constructor | rails_vite_template.rb:102 | the run starts from the given files, with an empty log and no failure |
| Pipeline.Project.SafeRunCommand | rails_vite_template.rb:15-20 | updates the state in place exactly as the `safe_run` step does |
| Pipeline.Project.RunTool | rails_vite_template.rb:430 | updates the state in place exactly as an unguarded action does, so what it raises ends the run |
| Pipeline.Project.AppendOnceTo | rails_vite_template.rb:22-26 | updates the files in place exactly as `append_once` does |
| Pipeline.Project.GsubFile | rails_vite_template.rb:198-200 | updates the files in place exactly as a literal `gsub_file` does: on a running template and an existing file, the file becomes the text with every occurrence of the pattern replaced |
| Pipeline.Project.GsubWholeFile | rails_vite_template.rb:212-221 | updates the files in place exactly as the whole-file `gsub_file` does |
| Pipeline.Project.Create | rails_vite_template.rb:127-130 | updates the files in place exactly as `file` does |
| Pipeline.Project.Remove | rails_vite_template.rb:126 | updates the files in place exactly as `remove_file` does |
| Pipeline.Project.MountReact | rails_vite_template.rb:208-244 | updates the files in place exactly as the entrypoint step does |
| Pipeline.Project.PublishRepo | rails_vite_template.rb:435-456 | updates the log in place exactly as the GitHub block does |
| Pipeline.Project.Step | rails_vite_template.rb:102-458 | one step of any kind, in place |
| Pipeline.Project.RunSteps | rails_vite_template.rb:102-458 | the loop over the template's steps ends in the state `Execute` gives, stopping at the first exception that escapes |

## Left out

- The Rails, Thor, npm, npx, curl, git and gh actions are not modelled in
  themselves. Examples are `generate`, `rails_command`, `environment`,
  `route`, `git :init`, `empty_directory` and the spring-kill command.
  - Each is a step whose success or failure, and whose written files, are
    inputs to the model.
  - A failed command's partial effects are not modelled.
  - Whether Thor's `run` raises on a non-zero exit is an input too.
- `inject_into_file` and `append_to_file` are not modelled. Thor may skip
  text that is already present there, and that code is not part of this
  model. `append_once`'s own `append_file` is modelled as a plain append that
  fails on a missing file.
- The environment probes are parameters: `Dir.pwd`, `ENV["GITHUB_OWNER"]`,
  `system("which gh ...")` and the output of `git remote`.
- `File.exist?` is modelled as membership in the file map. A directory at an
  entrypoint path is not modelled.
- Payloads are data and are not modelled. These are the README text, the
  initializer bodies, App.tsx, the flashes partial and the pages controller.
  `APP_TITLE` appears in the model only in the commit message.
- `say_status` colours are not modelled. Of Thor's own status lines, only
  one is kept: an action outside `safe_run` is logged as one :run entry with
  its name. The status lines of the file actions, such as the "create" line
  of `file`, are not logged.
- `file` with an existing path is modelled as an overwrite. Thor's conflict
  prompt, and `force: true`, are not modelled.
- String-pattern `gsub` takes the replacement literally. The template's
  replacements contain no backslash, so backreferences do not arise.
- `capitalize` and `downcase` are modelled for ASCII only. After the
  `[^a-zA-Z0-9_]` replacement the names contain nothing else.
- `strip` is modelled as removing ASCII whitespace and NUL. Unicode spaces
  are not modelled.
- The viewport edit (rails_vite_template.rb:66-70) is a literal `gsub_file`
  like the others and is covered by `GsubLiteral`. No property specific to
  its pattern and replacement is stated.
- Console.SafeRunReports: `raised` stands for a StandardError only.
  `rescue => e` (rails_vite_template.rb:18) does not catch SystemExit (which
  Thor's `abort` raises), Interrupt or another SignalException. Those escape
  `safe_run` and end the template, and the model does not represent them.
- Pipeline.RescuedContinues: the GitHub block counts as rescued because its
  one command runs under `safe_run`. The `git remote` probe
  (rails_vite_template.rb:452) runs outside `safe_run` and is taken to
  succeed. Without a `git` executable the backticks would raise
  Errno::ENOENT and end the template.
