// SonarService: the project-key sanitising, the "analysis already
// started" rule and the guards in front of launching a SonarQube analysis.
// The status repository, the file system, the SonarQube connection and the
// clock become parameters; times are milliseconds.

module SonarServices {
  import opened Nullable
  import opened SonarStates

  const PendingAnalysisTimeoutMs: int := 60 * 1000
  const RunningAnalysisTimeoutMs: int := PendingAnalysisTimeoutMs * 15
  const PendingMessage := "SonarQube analysis is pending."

  /** The part of a stored analysis status the service reads and writes. */
  datatype StatusRecord = StatusRecord(
    repoAnalysisId: string,
    projectKey: string,
    state: SonarAnalysisState,
    message: string,
    startTime: Option<int>)

  /** The character class `[a-zA-Z0-9_\-]`. */
  predicate IsKeyChar(c: char) {
    ('a' <= c <= 'z') || ('A' <= c <= 'Z') || ('0' <= c <= '9') || c == '_' || c == '-'
  }

  predicate IsValidKey(key: string) {
    forall i :: 0 <= i < |key| ==> IsKeyChar(key[i])
  }

  /** `createValidProjectKey`: every character outside the class becomes
      '_'; a Dafny character is one code point, as the regex sees it. */
  function CreateValidProjectKey(key: string): (r: string)
    ensures |r| == |key| && IsValidKey(r)
    decreases |key|
  {
    if |key| == 0 then []
    else
      var rest := CreateValidProjectKey(key[1..]);
      var c := if IsKeyChar(key[0]) then key[0] else '_';
      assert forall i :: 1 <= i < |[c] + rest| ==> ([c] + rest)[i] == rest[i - 1];
      [c] + rest
  }

  /** Character by character: allowed characters stay in place, the others
      become '_'. */
  lemma {:induction false} ValidKeyAt(key: string, i: nat)
    requires i < |key|
    ensures CreateValidProjectKey(key)[i] == (if IsKeyChar(key[i]) then key[i] else '_')
    decreases i
  {
    if i > 0 {
      ValidKeyAt(key[1..], i - 1);
    }
  }

  /** A key is left unchanged exactly when it is already valid. */
  lemma ValidKeyFixed(key: string)
    ensures CreateValidProjectKey(key) == key <==> IsValidKey(key)
  {
    var r := CreateValidProjectKey(key);
    if IsValidKey(key) {
      forall i | 0 <= i < |key| ensures r[i] == key[i] {
        ValidKeyAt(key, i);
      }
    }
  }

  /** Sanitising twice is sanitising once. */
  lemma ValidKeyIdempotent(key: string)
    ensures CreateValidProjectKey(CreateValidProjectKey(key)) == CreateValidProjectKey(key)
  {
    ValidKeyFixed(CreateValidProjectKey(key));
  }

  /** `isAnalysisStarted`, given the most recent status for the key: a
      pending analysis younger than a minute or a running one younger than
      fifteen minutes. */
  function IsAnalysisStarted(latest: Option<StatusRecord>, nowMs: int): (r: bool)
    ensures r ==> latest.Some? && latest.value.startTime.Some?
    ensures r ==> latest.value.state == Pending || latest.value.state == Running
  {
    match latest
    case None => false
    case Some(status) =>
      match status.startTime
      case None => false
      case Some(start) =>
        var elapsedMs := nowMs - start;
        || (status.state == Pending && elapsedMs < PendingAnalysisTimeoutMs)
        || (status.state == Running && elapsedMs < RunningAnalysisTimeoutMs)
  }

  /** The started rule only times out: an analysis started at some time
      was started at every earlier time, and none is started fifteen
      minutes after its start. */
  lemma StartedTimesOut(latest: Option<StatusRecord>, earlier: int, later: int)
    requires earlier <= later
    ensures IsAnalysisStarted(latest, later) ==> IsAnalysisStarted(latest, earlier)
    ensures latest.Some? && latest.value.startTime.Some?
            && later - latest.value.startTime.value >= RunningAnalysisTimeoutMs
            ==> !IsAnalysisStarted(latest, later)
  {
  }

  /** The two windows in milliseconds: a status with a start time counts
      as started exactly while it is pending and younger than 60 000 ms or
      running and younger than 900 000 ms; any other state never does. */
  lemma StartedWindows(s: StatusRecord, start: int, nowMs: int)
    requires s.startTime == Some(start)
    ensures s.state == Pending ==> (IsAnalysisStarted(Some(s), nowMs) <==> nowMs - start < 60000)
    ensures s.state == Running ==> (IsAnalysisStarted(Some(s), nowMs) <==> nowMs - start < 900000)
    ensures s.state != Pending && s.state != Running ==> !IsAnalysisStarted(Some(s), nowMs)
  {
  }

  /** A pending analysis times out long before a running one: between one
      and fifteen minutes after the start, the running status still counts
      as started and the pending one no longer does. */
  lemma PendingTimesOutFirst(s: StatusRecord, start: int, nowMs: int)
    requires s.startTime == Some(start) && 60000 <= nowMs - start < 900000
    ensures !IsAnalysisStarted(Some(s.(state := Pending)), nowMs)
    ensures IsAnalysisStarted(Some(s.(state := Running)), nowMs)
  {
    StartedWindows(s.(state := Pending), start, nowMs);
    StartedWindows(s.(state := Running), start, nowMs);
  }

  /** What `runAnalysis` ends with. */
  datatype RunOutcome =
    | AlreadyStarted                  // IllegalStateException
    | ProjectPathMissing              // ObjectNotFoundException
    | ConnectionFailed                // null
    | Launched(status: StatusRecord)  // the saved pending status

  /** `runAnalysis`: sanitise the key, refuse a started analysis, refuse a
      missing project directory, then either save a pending status and
      launch or give up when the connection cannot be prepared. */
  function RunAnalysis(findLatest: string -> Option<StatusRecord>, nowMs: int, projectIsDirectory: bool,
                       connected: bool, repoAnalysisId: string, projectKey: string): (r: RunOutcome)
    ensures var key := CreateValidProjectKey(projectKey);
            && (r.AlreadyStarted? <==> IsAnalysisStarted(findLatest(key), nowMs))
            && (r.ProjectPathMissing? <==> !IsAnalysisStarted(findLatest(key), nowMs) && !projectIsDirectory)
            && (r.ConnectionFailed? <==> (!IsAnalysisStarted(findLatest(key), nowMs) && projectIsDirectory
                                          && !connected))
    ensures r.Launched? ==> r.status == StatusRecord(repoAnalysisId, CreateValidProjectKey(projectKey), Pending,
                                                     PendingMessage, Some(nowMs))
  {
    var key := CreateValidProjectKey(projectKey);
    if IsAnalysisStarted(findLatest(key), nowMs) then AlreadyStarted
    else if !projectIsDirectory then ProjectPathMissing
    else if connected then Launched(StatusRecord(repoAnalysisId, key, Pending, PendingMessage, Some(nowMs)))
    else ConnectionFailed
  }

  /** Once an analysis is launched and its status is the latest for its
      key, a second request within a minute is refused, also for any other
      project key that sanitises to the same key. */
  lemma SecondRunRefused(findLatest: string -> Option<StatusRecord>, nowMs: int, repoAnalysisId: string,
                         projectKey: string, findAfter: string -> Option<StatusRecord>, laterMs: int,
                         projectIsDirectory: bool, connected: bool, otherId: string, otherKey: string)
    requires RunAnalysis(findLatest, nowMs, true, true, repoAnalysisId, projectKey).Launched?
    requires findAfter(CreateValidProjectKey(projectKey))
             == Some(RunAnalysis(findLatest, nowMs, true, true, repoAnalysisId, projectKey).status)
    requires laterMs < nowMs + PendingAnalysisTimeoutMs
    requires CreateValidProjectKey(otherKey) == CreateValidProjectKey(projectKey)
    ensures RunAnalysis(findAfter, laterMs, projectIsDirectory, connected, otherId, otherKey) == AlreadyStarted
  {
  }
}
