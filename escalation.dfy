/** The escalation of `auto_block_suspicious_ips` as specification
    functions.

    The job groups the unresolved flags by address and selects the
    addresses with at least three of them. A selected address that the
    registry does not report as blocked gets one 24-hour block call, and
    then all its unresolved flags are resolved. A selected address that is
    already blocked gets no call, and its flags stay unresolved. */
module Escalation {
  import opened Common
  import opened Records

  const ESCALATION_THRESHOLD: nat := 3
  const AUTO_BLOCK_REASON: string := "Automatically blocked: Multiple suspicious activity flags"
  const AUTO_BLOCK_ISSUER: string := "System"
  const AUTO_BLOCK_HOURS: nat := 24

  /** The per-address count the grouped query annotates. */
  function UnresolvedCount(flags: seq<SuspicionFlag>, ip: string): nat {
    Count(flags, (f: SuspicionFlag) => f.ip == ip && !f.isResolved)
  }

  /** The addresses of the unresolved flags, once each, in order of first
      appearance. */
  function FlaggedIps(flags: seq<SuspicionFlag>): (ips: seq<string>)
    ensures Distinct(ips)
  {
    if flags == [] then []
    else
      var seen := FlaggedIps(flags[..|flags| - 1]);
      var last := flags[|flags| - 1];
      if !last.isResolved && last.ip !in seen then seen + [last.ip] else seen
  }

  /** The job blocks `ip`: enough unresolved flags and not blocked yet. */
  predicate Escalates(flags: seq<SuspicionFlag>, registry: map<string, BlockEntry>, ip: string, now: int) {
    UnresolvedCount(flags, ip) >= ESCALATION_THRESHOLD && !IsBlocked(registry, ip, now)
  }

  /** The addresses among `ips` that the job blocks, in visiting order. */
  function Targets(ips: seq<string>, flags: seq<SuspicionFlag>, registry: map<string, BlockEntry>, now: int): seq<string> {
    if ips == [] then []
    else
      var ip := ips[|ips| - 1];
      Targets(ips[..|ips| - 1], flags, registry, now) + if Escalates(flags, registry, ip, now) then [ip] else []
  }

  /** The addresses one run of the job blocks. */
  function EscalationTargets(flags: seq<SuspicionFlag>, registry: map<string, BlockEntry>, now: int): seq<string> {
    Targets(FlaggedIps(flags), flags, registry, now)
  }

  function AutoBlockCall(ip: string): BlockCall {
    BlockCall(ip, AUTO_BLOCK_REASON, AUTO_BLOCK_ISSUER, AUTO_BLOCK_HOURS)
  }

  /** The block calls the job makes for `targets`, in order. */
  function AutoBlockCalls(targets: seq<string>): seq<BlockCall> {
    if targets == [] then []
    else AutoBlockCalls(targets[..|targets| - 1]) + [AutoBlockCall(targets[|targets| - 1])]
  }

  /** A flag after the job: resolved when its address was blocked. */
  function Settle(f: SuspicionFlag, targets: seq<string>): SuspicionFlag {
    if f.ip in targets then f.(isResolved := true) else f
  }

  /** The flag list after the job has resolved the flags of `targets`. */
  function ResolveAll(flags: seq<SuspicionFlag>, targets: seq<string>): seq<SuspicionFlag> {
    seq(|flags|, k requires 0 <= k < |flags| => Settle(flags[k], targets))
  }

  // ---------------------------------------------------------------------
  // One step of the job

  lemma TargetsNext(ips: seq<string>, i: nat, flags: seq<SuspicionFlag>, registry: map<string, BlockEntry>, now: int)
    requires i < |ips|
    ensures Targets(ips[..i + 1], flags, registry, now)
            == Targets(ips[..i], flags, registry, now) + if Escalates(flags, registry, ips[i], now) then [ips[i]] else []
  {
    assert ips[..i + 1][..i] == ips[..i];
  }

  lemma AutoBlockCallsNext(targets: seq<string>, ip: string)
    ensures AutoBlockCalls(targets + [ip]) == AutoBlockCalls(targets) + [AutoBlockCall(ip)]
  {
    assert (targets + [ip])[..|targets|] == targets;
  }

  /** Resolving one more address's flags is resolving for the longer list. */
  lemma ResolveAllNext(flags: seq<SuspicionFlag>, targets: seq<string>, ip: string)
    ensures ResolveAll(ResolveAll(flags, targets), [ip]) == ResolveAll(flags, targets + [ip])
  {
  }

  // ---------------------------------------------------------------------
  // Selection

  /** The grouped query yields exactly the addresses with an unresolved flag. */
  lemma {:induction false} FlaggedIpsMembership(flags: seq<SuspicionFlag>, ip: string)
    ensures ip in FlaggedIps(flags) <==> UnresolvedCount(flags, ip) > 0
  {
    if flags != [] {
      FlaggedIpsMembership(flags[..|flags| - 1], ip);
    }
  }

  lemma {:induction false} TargetsMembership(ips: seq<string>, flags: seq<SuspicionFlag>,
                                            registry: map<string, BlockEntry>, now: int, ip: string)
    ensures ip in Targets(ips, flags, registry, now) <==> ip in ips && Escalates(flags, registry, ip, now)
  {
    if ips != [] {
      var init := ips[..|ips| - 1];
      assert ips == init + [ips[|ips| - 1]];
      TargetsMembership(init, flags, registry, now, ip);
    }
  }

  lemma {:induction false} TargetsDistinct(ips: seq<string>, flags: seq<SuspicionFlag>,
                                          registry: map<string, BlockEntry>, now: int)
    requires Distinct(ips)
    ensures Distinct(Targets(ips, flags, registry, now))
  {
    if ips != [] {
      var init, last := ips[..|ips| - 1], ips[|ips| - 1];
      assert ips == init + [last];
      TargetsDistinct(init, flags, registry, now);
      TargetsMembership(init, flags, registry, now, last);
    }
  }

  /** The job blocks exactly the addresses with at least three unresolved
      flags that the registry does not report as blocked, each once. */
  lemma EscalationTargetsExact(flags: seq<SuspicionFlag>, registry: map<string, BlockEntry>, now: int, ip: string)
    ensures ip in EscalationTargets(flags, registry, now)
            <==> UnresolvedCount(flags, ip) >= 3 && !IsBlocked(registry, ip, now)
    ensures Distinct(EscalationTargets(flags, registry, now))
  {
    FlaggedIpsMembership(flags, ip);
    TargetsMembership(FlaggedIps(flags), flags, registry, now, ip);
    TargetsDistinct(FlaggedIps(flags), flags, registry, now);
  }

  // ---------------------------------------------------------------------
  // Calls made

  /** Each target gets one call, with the fixed reason, issuer and duration. */
  lemma {:induction false} AutoBlockCallsCount(targets: seq<string>, ip: string)
    requires Distinct(targets)
    ensures |AutoBlockCalls(targets)| == |targets|
    ensures forall c :: c in AutoBlockCalls(targets) ==>
      c.reason == AUTO_BLOCK_REASON && c.blockedBy == AUTO_BLOCK_ISSUER && c.durationHours == AUTO_BLOCK_HOURS
    ensures Count(AutoBlockCalls(targets), (c: BlockCall) => c.ip == ip) == if ip in targets then 1 else 0
  {
    if targets != [] {
      var init, last := targets[..|targets| - 1], targets[|targets| - 1];
      assert targets == init + [last];
      AutoBlockCallsCount(init, ip);
      var calls := AutoBlockCalls(targets);
      assert calls[..|calls| - 1] == AutoBlockCalls(init);
    }
  }

  /** Each address the job selects and finds unblocked gets exactly one
      block call, and no other address gets any; the number of calls is
      the number of newly blocked addresses. */
  lemma AutoBlockCallsExact(flags: seq<SuspicionFlag>, registry: map<string, BlockEntry>, now: int, ip: string)
    ensures var calls := AutoBlockCalls(EscalationTargets(flags, registry, now));
      && Count(calls, (c: BlockCall) => c.ip == ip)
         == (if UnresolvedCount(flags, ip) >= 3 && !IsBlocked(registry, ip, now) then 1 else 0)
      && (forall c :: c in calls ==> c == BlockCall(c.ip, AUTO_BLOCK_REASON, AUTO_BLOCK_ISSUER, 24))
      && |calls| == |EscalationTargets(flags, registry, now)|
  {
    EscalationTargetsExact(flags, registry, now, ip);
    AutoBlockCallsCount(EscalationTargets(flags, registry, now), ip);
  }

  // ---------------------------------------------------------------------
  // Resolution

  /** Resolution touches only `isResolved`, and only of the targets' flags. */
  lemma ResolveAllAt(flags: seq<SuspicionFlag>, registry: map<string, BlockEntry>, now: int, k: nat)
    requires k < |flags|
    ensures var after := ResolveAll(flags, EscalationTargets(flags, registry, now));
      && |after| == |flags|
      && (Escalates(flags, registry, flags[k].ip, now) ==> after[k] == flags[k].(isResolved := true))
      && (!Escalates(flags, registry, flags[k].ip, now) ==> after[k] == flags[k])
  {
    EscalationTargetsExact(flags, registry, now, flags[k].ip);
  }

  /** Count of unresolved flags of `ip` after resolving the targets' flags. */
  lemma {:induction false} UnresolvedAfterResolve(flags: seq<SuspicionFlag>, targets: seq<string>, ip: string)
    ensures UnresolvedCount(ResolveAll(flags, targets), ip) == if ip in targets then 0 else UnresolvedCount(flags, ip)
  {
    if flags != [] {
      var init := flags[..|flags| - 1];
      UnresolvedAfterResolve(init, targets, ip);
      var after := ResolveAll(flags, targets);
      assert after[..|after| - 1] == ResolveAll(init, targets);
    }
  }

  /** After the job, a newly blocked address has no unresolved flag left,
      while every other address, an already blocked one included, keeps
      exactly the unresolved flags it had. */
  lemma UnresolvedAfterEscalation(flags: seq<SuspicionFlag>, registry: map<string, BlockEntry>, now: int, ip: string)
    ensures UnresolvedCount(ResolveAll(flags, EscalationTargets(flags, registry, now)), ip)
            == if UnresolvedCount(flags, ip) >= 3 && !IsBlocked(registry, ip, now) then 0 else UnresolvedCount(flags, ip)
  {
    EscalationTargetsExact(flags, registry, now, ip);
    UnresolvedAfterResolve(flags, EscalationTargets(flags, registry, now), ip);
  }

  /** An address the job blocked is never selected by a later run over the
      resolved flags, whatever the registry then says. */
  lemma EscalatedNotSelectedAgain(flags: seq<SuspicionFlag>, registry: map<string, BlockEntry>, now: int,
                                  laterRegistry: map<string, BlockEntry>, later: int, ip: string)
    requires ip in EscalationTargets(flags, registry, now)
    ensures ip !in EscalationTargets(ResolveAll(flags, EscalationTargets(flags, registry, now)), laterRegistry, later)
  {
    var after := ResolveAll(flags, EscalationTargets(flags, registry, now));
    UnresolvedAfterResolve(flags, EscalationTargets(flags, registry, now), ip);
    EscalationTargetsExact(after, laterRegistry, later, ip);
  }
}
