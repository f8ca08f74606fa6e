/** Audit events and the flat filter every query starts from. */
module AuditModel {
  import opened Wrappers

  datatype Severity = Info | Warning | Error | Critical {
    function Rank(): nat {
      match this
      case Info => 0
      case Warning => 1
      case Error => 2
      case Critical => 3
    }
  }

  datatype EventType =
    | LoadStarted | LoadSucceeded | LoadFailed
    | RecoveryAttempted | RecoverySucceeded | RecoveryFailed
    | RollbackStarted | RollbackCompleted
    | RetryAttempted | StageSkipped
    | MemoryLimitExceeded | PerformanceSlaViolated
    | ValidationPassed | ValidationFailed

  /** Pipeline stages, error types and recovery actions are plain enumerations: only their identity matters. */
  type Label = string

  datatype AuditEvent = AuditEvent(id: nat, eventType: EventType, severity: Severity, pluginName: string,
                                   stage: Option<Label>, errorType: Option<Label>, recoveryAction: Option<Label>,
                                   message: string, metadata: string, timestamp: nat,
                                   retryCount: Option<nat>, durationMs: Option<nat>)

  datatype Filter = Filter(pluginName: Option<string>, eventType: Option<EventType>, minSeverity: Option<Severity>,
                           stage: Option<Label>, recoveryAction: Option<Label>,
                           startTime: Option<nat>, endTime: Option<nat>, limit: Option<nat>, offset: Option<nat>)

  predicate OccursAt(text: string, part: string, i: nat) {
    i + |part| <= |text| && text[i..i + |part|] == part
  }

  predicate Contains(text: string, part: string) {
    exists i :: 0 <= i <= |text| && OccursAt(text, part, i)
  }

  predicate Matches(f: Filter, e: AuditEvent) {
    && (f.pluginName.Some? ==> Contains(e.pluginName, f.pluginName.value))
    && (f.eventType.Some? ==> e.eventType == f.eventType.value)
    && (f.minSeverity.Some? ==> e.severity.Rank() >= f.minSeverity.value.Rank())
    && (f.stage.Some? ==> e.stage == f.stage)
    && (f.recoveryAction.Some? ==> e.recoveryAction == f.recoveryAction)
    && (f.startTime.Some? ==> e.timestamp >= f.startTime.value)
    && (f.endTime.Some? ==> e.timestamp <= f.endTime.value)
  }
}
