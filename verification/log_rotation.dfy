/** The staleness test run before every launch: a shared log older than the
    retention window is truncated. Times are whole seconds. */
module LogRotation {

  /** Retention window, in days. */
  const LOG_MAX_DAYS := 1
  const SECONDS_PER_DAY := 86400

  /** What the supervisor knows of the log file: whether it exists, when it
      was last modified, and what it holds. */
  datatype LogFile = LogFile(present: bool, mtime: int, content: string)

  /** The log exists and more than the retention window has passed since it
      was last modified. */
  predicate IsStale(log: LogFile, now: int) {
    log.present && now - log.mtime > LOG_MAX_DAYS * SECONDS_PER_DAY
  }

  /** `clean_old_logs`: a stale log is opened for writing, which empties it
      and stamps it with the current time; any other log is left alone. */
  function CleanOldLogs(log: LogFile, now: int): (r: LogFile)
    ensures r.present == log.present
    ensures r.content == log.content || r.content == []
  {
    if IsStale(log, now) then LogFile(true, now, []) else log
  }

  /** The log is touched exactly when it exists and is more than one day
      (86400 seconds) old; a truncated log is empty and fresh. */
  lemma CleanOldLogsTouchesOnlyStale(log: LogFile, now: int)
    ensures CleanOldLogs(log, now) != log <==> log.present && now - log.mtime > 86400
    ensures CleanOldLogs(log, now) != log ==> CleanOldLogs(log, now) == LogFile(true, now, [])
  {
  }

  /** A log exactly one day old is kept; one second older, it is emptied. */
  lemma OneDayBoundary(mtime: int, content: string)
    ensures CleanOldLogs(LogFile(true, mtime, content), mtime + 86400) == LogFile(true, mtime, content)
    ensures CleanOldLogs(LogFile(true, mtime, content), mtime + 86401) == LogFile(true, mtime + 86401, [])
  {
  }

  /** A missing log causes no action. */
  lemma MissingLogUntouched(log: LogFile, now: int)
    requires !log.present
    ensures CleanOldLogs(log, now) == log
  {
  }

  /** Cleaning twice at the same time is cleaning once. */
  lemma CleanOldLogsIdempotent(log: LogFile, now: int)
    ensures CleanOldLogs(CleanOldLogs(log, now), now) == CleanOldLogs(log, now)
  {
  }

  /** A stale log emptied at `now` is not emptied again by a launch within
      the following day: the later clean leaves it as the first one left it. */
  lemma CleanedLogKeptForADay(log: LogFile, now: int, later: int)
    requires IsStale(log, now)
    requires later <= now + 86400
    ensures CleanOldLogs(CleanOldLogs(log, now), later) == LogFile(true, now, [])
  {
  }
}
