// ProcessProgressMonitor: the JGit progress monitor that logs a clone or
// fetch at most once per `logIntervalPercentage` points of progress. The
// logger becomes a returned list of log events.

module ProgressMonitors {
  import opened Nullable
  import opened JavaLang

  datatype Monitor = Monitor(
    currentTask: Option<string>,
    totalWork: int,
    completed: int,
    lastLoggedPercentage: int,
    logIntervalPercentage: int)

  /** What the monitor logs: the debug lines of `start`, `beginTask` and
      `endTask` and the info line of a progress step. */
  datatype LogEvent =
    | ProcessStarting(totalTasks: int)
    | TaskStarted(title: string, totalWork: int)
    | TaskFinished(task: Option<string>, totalWork: int)
    | Progress(task: Option<string>, percentage: int)

  /** The constructor: no task, nothing done, nothing logged yet. */
  function NewMonitor(logIntervalPercentage: int): (m: Monitor)
    ensures m.currentTask.None? && m.totalWork == 0 && m.completed == 0
    ensures m.lastLoggedPercentage == -1 && m.logIntervalPercentage == logIntervalPercentage
  {
    Monitor(None, 0, 0, -1, logIntervalPercentage)
  }

  /** `start`: one debug line, no change. */
  function Start(m: Monitor, totalTasks: int): (r: (Monitor, seq<LogEvent>))
    ensures r.0 == m && r.1 == [ProcessStarting(totalTasks)]
  {
    (m, [ProcessStarting(totalTasks)])
  }

  /** `beginTask`: a fresh task with nothing completed and nothing logged;
      the debug line only for positive work. */
  function BeginTask(m: Monitor, title: string, totalWork: int): (r: (Monitor, seq<LogEvent>))
    ensures r.0 == Monitor(Some(title), totalWork, 0, -1, m.logIntervalPercentage)
    ensures |r.1| == (if totalWork > 0 then 1 else 0)
  {
    (Monitor(Some(title), totalWork, 0, -1, m.logIntervalPercentage),
     if totalWork > 0 then [TaskStarted(title, totalWork)] else [])
  }

  /** `(int) ((completed * 100.0) / totalWork)`: the percentage done,
      truncated toward zero. */
  function Percentage(completed: int, totalWork: int): (p: int)
    requires totalWork > 0
    ensures 0 <= completed ==> p * totalWork <= completed * 100 < (p + 1) * totalWork
    ensures 0 <= completed <= totalWork ==> 0 <= p <= 100
  {
    var p := TruncDiv(completed * 100, totalWork);
    assert 0 <= completed <= totalWork ==> 0 <= p <= 100 by {
      if 0 <= completed <= totalWork {
        PercentageBounds(completed, totalWork, p);
      }
    }
    p
  }

  lemma PercentageBounds(completed: int, totalWork: int, p: int)
    requires 0 <= completed <= totalWork && 0 <= completed * 100 - p * totalWork < totalWork
    ensures 0 <= p <= 100
  {
  }

  /** `logProgressIfNeeded`: with positive work, the percentage is logged
      and remembered when it is at least one interval above the last
      logged one. */
  function LogProgressIfNeeded(m: Monitor): (r: (Monitor, seq<LogEvent>))
    ensures r.0.(lastLoggedPercentage := m.lastLoggedPercentage) == m
    ensures |r.1| <= 1
    ensures |r.1| == 1 <==> (m.totalWork > 0
                             && Percentage(m.completed, m.totalWork) >= m.lastLoggedPercentage + m.logIntervalPercentage)
    ensures |r.1| == 1 ==> (&& r.1[0] == Progress(m.currentTask, r.0.lastLoggedPercentage)
                            && r.0.lastLoggedPercentage == Percentage(m.completed, m.totalWork))
    ensures |r.1| == 0 ==> r.0 == m
  {
    if m.totalWork <= 0 then (m, [])
    else
      var p := Percentage(m.completed, m.totalWork);
      if p >= m.lastLoggedPercentage + m.logIntervalPercentage then
        (m.(lastLoggedPercentage := p), [Progress(m.currentTask, p)])
      else (m, [])
  }

  /** `update`: adds the step to the work completed, then maybe logs. */
  function Update(m: Monitor, completed: int): (r: (Monitor, seq<LogEvent>))
    ensures r.0.completed == m.completed + completed
    ensures r.0.currentTask == m.currentTask && r.0.totalWork == m.totalWork
    ensures r.0.logIntervalPercentage == m.logIntervalPercentage
  {
    LogProgressIfNeeded(m.(completed := m.completed + completed))
  }

  /** `endTask`: the debug line for positive work, then back to no task. */
  function EndTask(m: Monitor): (r: (Monitor, seq<LogEvent>))
    ensures r.0 == Monitor(None, 0, 0, -1, m.logIntervalPercentage)
    ensures |r.1| == (if m.totalWork > 0 then 1 else 0)
    ensures m.totalWork > 0 ==> r.1 == [TaskFinished(m.currentTask, m.totalWork)]
  {
    (Monitor(None, 0, 0, -1, m.logIntervalPercentage),
     if m.totalWork > 0 then [TaskFinished(m.currentTask, m.totalWork)] else [])
  }

  /** `isCancelled`: the monitor never cancels. */
  function IsCancelled(m: Monitor): (r: bool)
    ensures !r
  {
    false
  }

  /** A run of `update` calls, with the log lines in order. */
  function Updates(m: Monitor, steps: seq<int>): (r: (Monitor, seq<LogEvent>))
    decreases |steps|
  {
    if |steps| == 0 then (m, [])
    else
      var (m1, log1) := Update(m, steps[0]);
      var (m2, log2) := Updates(m1, steps[1..]);
      (m2, log1 + log2)
  }

  /** Every event of a run of updates is a progress line of the task. */
  predicate ProgressOf(log: seq<LogEvent>, task: Option<string>) {
    forall i :: 0 <= i < |log| ==> log[i].Progress? && log[i].task == task
  }

  /** Successive logged percentages are at least `interval` apart. */
  predicate Spaced(log: seq<LogEvent>, interval: int)
    requires forall i :: 0 <= i < |log| ==> log[i].Progress?
  {
    forall i :: 0 <= i < |log| - 1 ==> log[i + 1].percentage >= log[i].percentage + interval
  }

  /** What a run of updates from `m` leaves: the task, the work and the
      interval stay, every line is a progress line of the task, each is at
      least one interval above the previous one (the first above the last
      logged before the run), and the last one is what the monitor
      remembers. */
  predicate Logged(m: Monitor, r: Monitor, log: seq<LogEvent>) {
    && r.currentTask == m.currentTask && r.totalWork == m.totalWork
    && r.logIntervalPercentage == m.logIntervalPercentage
    && ProgressOf(log, m.currentTask)
    && Spaced(log, m.logIntervalPercentage)
    && (|log| == 0 ==> r.lastLoggedPercentage == m.lastLoggedPercentage)
    && (|log| > 0 ==> && log[0].percentage >= m.lastLoggedPercentage + m.logIntervalPercentage
                      && r.lastLoggedPercentage == log[|log| - 1].percentage)
  }

  /** One logged step followed by a logged run is a logged run. */
  lemma LoggedStep(m: Monitor, m1: Monitor, log1: seq<LogEvent>, r: Monitor, log2: seq<LogEvent>)
    requires Logged(m, m1, log1) && |log1| <= 1 && Logged(m1, r, log2)
    ensures Logged(m, r, log1 + log2)
  {
    var log := log1 + log2;
    assert forall i :: 0 <= i < |log2| ==> log[|log1| + i] == log2[i];
    if |log1| == 1 && |log2| > 0 {
      assert log[1] == log2[0];
    }
  }

  /** A run of updates is a logged run, and the completed work grows by the
      sum of the steps. */
  lemma {:induction false} UpdatesLog(m: Monitor, steps: seq<int>)
    ensures Logged(m, Updates(m, steps).0, Updates(m, steps).1)
    ensures Updates(m, steps).0.completed == m.completed + Sum(steps)
    decreases |steps|
  {
    if |steps| > 0 {
      var (m1, log1) := Update(m, steps[0]);
      UpdatesLog(m1, steps[1..]);
      var (r, log2) := Updates(m1, steps[1..]);
      LoggedStep(m, m1, log1, r, log2);
    }
  }

  function Sum(steps: seq<int>): int
    decreases |steps|
  {
    if |steps| == 0 then 0 else steps[0] + Sum(steps[1..])
  }

  /** A task without positive work never logs progress. */
  lemma {:induction false} NoWorkNoProgress(m: Monitor, steps: seq<int>)
    requires m.totalWork <= 0
    ensures Updates(m, steps).1 == []
    decreases |steps|
  {
    if |steps| > 0 {
      NoWorkNoProgress(Update(m, steps[0]).0, steps[1..]);
    }
  }

  /** A whole task: `beginTask`, the updates, `endTask`. The log is the
      start line (for positive work), progress lines spaced by the
      interval and starting at a percentage of at least `interval - 1`,
      then the finish line; the monitor ends as it was built. */
  lemma TaskLog(m: Monitor, title: string, totalWork: int, steps: seq<int>)
    ensures var (m1, log1) := BeginTask(m, title, totalWork);
            var (m2, log2) := Updates(m1, steps);
            var (m3, log3) := EndTask(m2);
            && m3 == NewMonitor(m.logIntervalPercentage)
            && ProgressOf(log2, Some(title))
            && Spaced(log2, m.logIntervalPercentage)
            && (|log2| > 0 ==> log2[0].percentage >= m.logIntervalPercentage - 1)
            && (totalWork <= 0 ==> log1 + log2 + log3 == [])
  {
    var (m1, log1) := BeginTask(m, title, totalWork);
    UpdatesLog(m1, steps);
    assert Logged(m1, Updates(m1, steps).0, Updates(m1, steps).1);
    if totalWork <= 0 {
      NoWorkNoProgress(m1, steps);
    }
  }
}
