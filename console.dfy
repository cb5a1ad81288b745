/**
 * What the template prints with `say_status`, kept as a log of entries, and
 * `safe_run`: print the command, run it, and turn an exception it raises into
 * a warning instead of letting it escape.
 */
module Console {
  import opened Wrappers

  /** One `say_status` line: :run, :warn, :info or :hint and its text. */
  datatype Status =
    | Run(command: string)
    | Warn(message: string)
    | Info(message: string)
    | Hint(message: string)

  const FailurePrefix: string := "Command failed (continuing): "

  /**
   * The log of `safe_run cmd`. `raised` is the message of the exception that
   * running the command raised, or None when it raised nothing; whether it
   * raises is decided outside the template.
   */
  function SafeRunLog(command: string, raised: Option<string>): (log: seq<Status>)
    ensures |log| == (if raised.Some? then 2 else 1) && log[0] == Run(command)
  {
    [Run(command)] + if raised.Some? then [Warn(FailurePrefix + raised.value)] else []
  }

  /** The commands a log says were run, in order. */
  function Commands(log: seq<Status>): seq<string> {
    if log == [] then []
    else (if log[0].Run? then [log[0].command] else []) + Commands(log[1..])
  }

  /** The number of warnings in a log. */
  function WarnCount(log: seq<Status>): nat {
    if log == [] then 0 else (if log[0].Warn? then 1 else 0) + WarnCount(log[1..])
  }

  lemma {:induction false} CommandsAppend(a: seq<Status>, b: seq<Status>)
    ensures Commands(a + b) == Commands(a) + Commands(b)
    ensures WarnCount(a + b) == WarnCount(a) + WarnCount(b)
    decreases |a|
  {
    if a != [] {
      assert (a + b)[0] == a[0];
      assert (a + b)[1..] == a[1..] + b;
      CommandsAppend(a[1..], b);
      var head := if a[0].Run? then [a[0].command] else [];
      assert head + (Commands(a[1..]) + Commands(b)) == head + Commands(a[1..]) + Commands(b);
    } else {
      assert a + b == b;
    }
  }

  /**
   * safe_run logs its command once and at most one warning, and the warning
   * is there exactly when the command raised, carrying the exception's message.
   */
  lemma SafeRunReports(command: string, raised: Option<string>)
    ensures var log := SafeRunLog(command, raised);
      && Commands(log) == [command]
      && WarnCount(log) == (if raised.Some? then 1 else 0)
      && (raised.Some? ==> Warn(FailurePrefix + raised.value) in log)
  {
    var log := SafeRunLog(command, raised);
    assert log[1..] == if raised.Some? then [Warn(FailurePrefix + raised.value)] else [];
    if raised.Some? {
      assert log[1..][1..] == [];
      assert Commands(log[1..]) == [] && WarnCount(log[1..]) == 1;
    } else {
      assert Commands(log[1..]) == [] && WarnCount(log[1..]) == 0;
    }
  }
}
