/** The three periodic jobs of the tracking application, run against the
    request-log and suspicion-flag tables they update in place. Each job
    takes the instant it runs at as `now`. */
module Tasks {
  import opened Common
  import opened Records
  import opened Detection
  import opened Retention
  import opened Escalation

  /** The request log and the suspicion tracker, as the jobs see them. */
  class TrackingStore {
    var logs: seq<RequestLog>
    var flags: seq<SuspicionFlag>

    constructor (logs0: seq<RequestLog>, flags0: seq<SuspicionFlag>)
      ensures logs == logs0 && flags == flags0
    {
      logs := logs0;
      flags := flags0;
    }

    /** One detection pass: group the windowed logs of `rule` by address,
        then flag the candidates among them. */
    method RunRule(rule: Rule, now: int) returns (created: nat)
      modifies this`flags
      ensures flags == Pass(old(flags), rule, logs, now)
      ensures created == |flags| - |old(flags)|
    {
      var windowStart := now - HOUR;
      var ips := RuleIps(logs, rule, windowStart);
      created := FlagCandidates(rule, ips, windowStart, now);
    }

    /** The loop of one pass: visit `ips` in order and flag each. */
    method FlagCandidates(rule: Rule, ips: seq<string>, windowStart: int, now: int) returns (created: nat)
      requires Distinct(ips)
      modifies this`flags
      ensures flags == old(flags) + PassFlags(old(flags), rule, ips, logs, windowStart, now)
      ensures created == |flags| - |old(flags)|
    {
      ghost var start := flags;
      ghost var added: seq<SuspicionFlag> := [];
      assert ips[..0] == [];
      created := 0;
      var i := 0;
      while i < |ips|
        invariant 0 <= i <= |ips|
        invariant added == PassFlags(start, rule, ips[..i], logs, windowStart, now)
        invariant flags == start + added
        invariant created == |added|
      {
        PassFlagsNext(start, flags, rule, ips, i, logs, windowStart, now);
        ghost var step := PassStep(flags, rule, ips[i], logs, windowStart, now);
        var flagged := FlagIfUncovered(rule, ips[i], windowStart, now);
        if flagged {
          created := created + 1;
        }
        added := added + step;
        i := i + 1;
      }
      assert ips[..i] == ips;
    }

    /** The body of the pass loop for one address: count its matching
        logs, and when it is a candidate that no recent flag covers, append
        a new flag for it. */
    method FlagIfUncovered(rule: Rule, ip: string, windowStart: int, now: int) returns (flagged: bool)
      modifies this`flags
      ensures flags == old(flags) + PassStep(old(flags), rule, ip, logs, windowStart, now)
      ensures flagged <==> |flags| == |old(flags)| + 1
    {
      flagged := false;
      var count := RuleCount(logs, rule, ip, windowStart);
      if count > Threshold(rule) {
        var recent := HasRecentFlag(flags, rule, ip, windowStart);
        if !recent {
          flags := flags + [NewFlag(rule, ip, count, now)];
          flagged := true;
        }
      }
    }

    /** `detect_anomalies`: the volume pass, then one sensitive-path pass
        per prefix; returns the number of flags created. */
    method DetectAnomalies(now: int) returns (flaggedCount: nat)
      modifies this`flags
      ensures logs == old(logs)
      ensures flags == Scan(old(flags), logs, now)
      ensures old(flags) <= flags
      ensures flaggedCount == |flags| - |old(flags)|
    {
      flaggedCount := RunRule(Volume, now);
      assert SCAN_RULES[..1] == [Volume];
      var k := 0;
      while k < |SENSITIVE_PATHS|
        invariant 0 <= k <= |SENSITIVE_PATHS|
        invariant flags == ScanThrough(old(flags), logs, now, SCAN_RULES[..k + 1])
        invariant flaggedCount == |flags| - |old(flags)|
      {
        assert SCAN_RULES[k + 1] == SensitivePath(SENSITIVE_PATHS[k]);
        assert SCAN_RULES[..k + 2][..k + 1] == SCAN_RULES[..k + 1];
        ScanThroughExtends(old(flags), logs, now, SCAN_RULES[..k + 1]);
        var created := RunRule(SensitivePath(SENSITIVE_PATHS[k]), now);
        flaggedCount := flaggedCount + created;
        k := k + 1;
      }
      assert SCAN_RULES[..k + 1] == SCAN_RULES;
      ScanAppendsOnly(old(flags), logs, now);
    }

    /** `cleanup_old_logs`: delete the logs older than thirty days and
        return how many were deleted. */
    method CleanupOldLogs(now: int) returns (deletedCount: nat)
      modifies this`logs
      ensures flags == old(flags)
      ensures logs == Retained(old(logs), now - RETENTION_PERIOD)
      ensures deletedCount == StaleCount(old(logs), now - RETENTION_PERIOD)
      ensures deletedCount == |old(logs)| - |logs|
    {
      var cutoff := now - RETENTION_PERIOD;
      var kept: seq<RequestLog> := [];
      deletedCount := 0;
      var i := 0;
      while i < |logs|
        invariant 0 <= i <= |logs|
        invariant kept == Retained(logs[..i], cutoff)
        invariant deletedCount == StaleCount(logs[..i], cutoff)
      {
        assert logs[..i + 1][..i] == logs[..i];
        if logs[i].timestamp < cutoff {
          deletedCount := deletedCount + 1;
        } else {
          kept := kept + [logs[i]];
        }
        i := i + 1;
      }
      assert logs[..i] == logs;
      RetainedSize(logs, cutoff);
      logs := kept;
    }

    /** The blanket update that marks every unresolved flag of `ip` resolved. */
    method ResolveFlagsOf(ip: string)
      modifies this`flags
      ensures flags == ResolveAll(old(flags), [ip])
    {
      var k := 0;
      while k < |flags|
        invariant 0 <= k <= |flags| == |old(flags)|
        invariant forall j :: 0 <= j < k ==> flags[j] == Settle(old(flags)[j], [ip])
        invariant forall j :: k <= j < |flags| ==> flags[j] == old(flags)[j]
      {
        if flags[k].ip == ip && !flags[k].isResolved {
          flags := flags[k := flags[k].(isResolved := true)];
        }
        k := k + 1;
      }
    }

    /** `auto_block_suspicious_ips`: for each address with at least three
        unresolved flags that the registry does not report as blocked, make
        one 24-hour block call and resolve its flags. Returns the number of
        addresses blocked and the block calls made, in order. The registry
        is consulted, not changed: applying the calls is its business. */
    method AutoBlockSuspiciousIps(registry: map<string, BlockEntry>, now: int)
      returns (blockedCount: nat, calls: seq<BlockCall>)
      modifies this`flags
      ensures logs == old(logs)
      ensures calls == AutoBlockCalls(EscalationTargets(old(flags), registry, now))
      ensures blockedCount == |calls|
      ensures flags == ResolveAll(old(flags), EscalationTargets(old(flags), registry, now))
    {
      var snapshot := flags;
      var ips := FlaggedIps(snapshot);
      ghost var done: seq<string> := [];
      blockedCount, calls := 0, [];
      assert ResolveAll(snapshot, []) == snapshot;
      var i := 0;
      while i < |ips|
        invariant 0 <= i <= |ips|
        invariant done == Targets(ips[..i], snapshot, registry, now)
        invariant calls == AutoBlockCalls(done)
        invariant blockedCount == |calls| == |done|
        invariant flags == ResolveAll(snapshot, done)
      {
        var ip := ips[i];
        TargetsNext(ips, i, snapshot, registry, now);
        if UnresolvedCount(snapshot, ip) >= ESCALATION_THRESHOLD && !IsBlocked(registry, ip, now) {
          calls := calls + [AutoBlockCall(ip)];
          blockedCount := blockedCount + 1;
          ResolveFlagsOf(ip);
          AutoBlockCallsNext(done, ip);
          ResolveAllNext(snapshot, done, ip);
          done := done + [ip];
        }
        i := i + 1;
      }
      assert ips[..i] == ips;
    }
  }
}
