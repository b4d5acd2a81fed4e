/** The anomaly scan of `detect_anomalies` as specification functions.

    One scan at instant `now` looks at the trailing hour `[now - HOUR, ...]`
    and runs four passes in order: the volume rule, then the sensitive-path
    rule once for each of "/admin", "/login" and "/api/auth". A pass groups
    the matching logs by address (in order of first appearance), keeps the
    addresses whose count exceeds the rule's threshold, and appends one new
    flag for each such address that no recent flag already covers. */
module Detection {
  import opened Common
  import opened Records

  const VOLUME_THRESHOLD: nat := 100
  const PATH_THRESHOLD: nat := 10
  const SENSITIVE_PATHS: seq<string> := ["/admin", "/login", "/api/auth"]

  /** The two detection rules; the sensitive-path rule is run once per prefix. */
  datatype Rule = Volume | SensitivePath(prefix: string)

  /** The passes of one scan, in the order the job runs them. */
  const SCAN_RULES: seq<Rule> :=
    [Volume, SensitivePath("/admin"), SensitivePath("/login"), SensitivePath("/api/auth")]

  /** A rule fires for counts strictly above its threshold. */
  function Threshold(rule: Rule): nat {
    match rule
    case Volume => VOLUME_THRESHOLD
    case SensitivePath(_) => PATH_THRESHOLD
  }

  /** The log filter of a rule: inside the window and, for the path rule,
      a path that starts with the prefix (so "/administrator" counts as
      "/admin"). */
  predicate Matches(rule: Rule, log: RequestLog, windowStart: int) {
    windowStart <= log.timestamp &&
    match rule
    case Volume => true
    case SensitivePath(prefix) => StartsWith(log.path, prefix)
  }

  /** The per-address count the grouped query annotates. */
  function RuleCount(logs: seq<RequestLog>, rule: Rule, ip: string, windowStart: int): nat {
    Count(logs, (l: RequestLog) => l.ip == ip && Matches(rule, l, windowStart))
  }

  /** The addresses the grouped query yields, once each, in order of first
      appearance among the matching logs. */
  function RuleIps(logs: seq<RequestLog>, rule: Rule, windowStart: int): (ips: seq<string>)
    ensures Distinct(ips)
  {
    if logs == [] then []
    else
      var seen := RuleIps(logs[..|logs| - 1], rule, windowStart);
      var last := logs[|logs| - 1];
      if Matches(rule, last, windowStart) && last.ip !in seen then seen + [last.ip] else seen
  }

  predicate IsCandidate(logs: seq<RequestLog>, rule: Rule, ip: string, windowStart: int) {
    RuleCount(logs, rule, ip, windowStart) > Threshold(rule)
  }

  /** The dedup test: a flag for the address raised inside the window;
      for the path rule its reason must also mention the prefix, for the
      volume rule any reason will do. */
  predicate Suppresses(rule: Rule, f: SuspicionFlag, ip: string, windowStart: int) {
    f.ip == ip && windowStart <= f.flaggedAt &&
    match rule
    case Volume => true
    case SensitivePath(prefix) => Contains(f.reason, prefix)
  }

  predicate HasRecentFlag(flags: seq<SuspicionFlag>, rule: Rule, ip: string, windowStart: int) {
    exists f | f in flags :: Suppresses(rule, f, ip, windowStart)
  }

  function Reason(rule: Rule, count: nat): string {
    match rule
    case Volume =>
      "High request volume: " + NatToString(count) + " requests in last hour"
    case SensitivePath(prefix) =>
      "Multiple attempts to " + prefix + ": " + NatToString(count) + " times in last hour"
  }

  /** A freshly created flag: raised at the scan instant, not resolved. */
  function NewFlag(rule: Rule, ip: string, count: nat, now: int): SuspicionFlag {
    SuspicionFlag(ip, Reason(rule, count), count, now, false)
  }

  /** The flag a pass appends for `ip` given the flags `flags`: the new
      flag when the address is a candidate that no recent flag covers. */
  function PassStep(flags: seq<SuspicionFlag>, rule: Rule, ip: string,
                    logs: seq<RequestLog>, windowStart: int, now: int): seq<SuspicionFlag>
  {
    var count := RuleCount(logs, rule, ip, windowStart);
    if count > Threshold(rule) && !HasRecentFlag(flags, rule, ip, windowStart)
    then [NewFlag(rule, ip, count, now)] else []
  }

  /** The flags one pass appends while visiting `ips`, each judged against
      the flags `flags` present when the pass began. */
  function PassFlags(flags: seq<SuspicionFlag>, rule: Rule, ips: seq<string>,
                     logs: seq<RequestLog>, windowStart: int, now: int): seq<SuspicionFlag>
  {
    if ips == [] then []
    else
      PassFlags(flags, rule, ips[..|ips| - 1], logs, windowStart, now)
        + PassStep(flags, rule, ips[|ips| - 1], logs, windowStart, now)
  }

  /** The flag list after one pass of `rule` at instant `now`. */
  function Pass(flags: seq<SuspicionFlag>, rule: Rule, logs: seq<RequestLog>, now: int): seq<SuspicionFlag> {
    var windowStart := now - HOUR;
    flags + PassFlags(flags, rule, RuleIps(logs, rule, windowStart), logs, windowStart, now)
  }

  /** The flag list after running `rules` in order. */
  function ScanThrough(flags: seq<SuspicionFlag>, logs: seq<RequestLog>, now: int, rules: seq<Rule>): seq<SuspicionFlag> {
    if rules == [] then flags
    else Pass(ScanThrough(flags, logs, now, rules[..|rules| - 1]), rules[|rules| - 1], logs, now)
  }

  /** The flag list after one whole scan. */
  function Scan(flags: seq<SuspicionFlag>, logs: seq<RequestLog>, now: int): seq<SuspicionFlag> {
    ScanThrough(flags, logs, now, SCAN_RULES)
  }

  // ---------------------------------------------------------------------
  // Selection

  /** The grouped query yields exactly the addresses with a matching log. */
  lemma {:induction false} RuleIpsMembership(logs: seq<RequestLog>, rule: Rule, windowStart: int, ip: string)
    ensures ip in RuleIps(logs, rule, windowStart) <==> RuleCount(logs, rule, ip, windowStart) > 0
  {
    if logs != [] {
      RuleIpsMembership(logs[..|logs| - 1], rule, windowStart, ip);
    }
  }

  /** An address survives the `count > threshold` filter of the grouped
      query exactly when its windowed count exceeds the threshold. */
  lemma CandidateSelection(logs: seq<RequestLog>, rule: Rule, windowStart: int, ip: string)
    ensures (ip in RuleIps(logs, rule, windowStart) && RuleCount(logs, rule, ip, windowStart) > Threshold(rule))
            <==> IsCandidate(logs, rule, ip, windowStart)
  {
    RuleIpsMembership(logs, rule, windowStart, ip);
  }

  // ---------------------------------------------------------------------
  // What one pass appends

  /** Every appended flag is the new flag of a visited candidate that no
      recent flag covered. */
  lemma {:induction false} PassFlagsSound(flags: seq<SuspicionFlag>, rule: Rule, ips: seq<string>,
                                         logs: seq<RequestLog>, windowStart: int, now: int)
    ensures forall f :: f in PassFlags(flags, rule, ips, logs, windowStart, now) ==>
      && f.ip in ips
      && IsCandidate(logs, rule, f.ip, windowStart)
      && !HasRecentFlag(flags, rule, f.ip, windowStart)
      && f == NewFlag(rule, f.ip, RuleCount(logs, rule, f.ip, windowStart), now)
  {
    if ips != [] {
      var init := ips[..|ips| - 1];
      assert ips == init + [ips[|ips| - 1]];
      PassFlagsSound(flags, rule, init, logs, windowStart, now);
    }
  }

  /** Every appended flag belongs to a visited address. */
  lemma {:induction false} PassFlagsIps(flags: seq<SuspicionFlag>, rule: Rule, ips: seq<string>,
                                       logs: seq<RequestLog>, windowStart: int, now: int)
    ensures forall f :: f in PassFlags(flags, rule, ips, logs, windowStart, now) ==> f.ip in ips
  {
    if ips != [] {
      var init := ips[..|ips| - 1];
      assert ips == init + [ips[|ips| - 1]];
      PassFlagsIps(flags, rule, init, logs, windowStart, now);
    }
  }

  /** A pass appends nothing when every visited candidate is already covered. */
  lemma {:induction false} PassFlagsEmpty(flags: seq<SuspicionFlag>, rule: Rule, ips: seq<string>,
                                         logs: seq<RequestLog>, windowStart: int, now: int)
    requires forall ip :: ip in ips && IsCandidate(logs, rule, ip, windowStart) ==> HasRecentFlag(flags, rule, ip, windowStart)
    ensures PassFlags(flags, rule, ips, logs, windowStart, now) == []
  {
    if ips != [] {
      var init := ips[..|ips| - 1];
      assert ips == init + [ips[|ips| - 1]];
      PassFlagsEmpty(flags, rule, init, logs, windowStart, now);
    }
  }

  /** Every visited candidate that no recent flag covered gets its flag. */
  lemma {:induction false} PassFlagsComplete(flags: seq<SuspicionFlag>, rule: Rule, ips: seq<string>,
                                            logs: seq<RequestLog>, windowStart: int, now: int, ip: string)
    requires ip in ips && IsCandidate(logs, rule, ip, windowStart) && !HasRecentFlag(flags, rule, ip, windowStart)
    ensures NewFlag(rule, ip, RuleCount(logs, rule, ip, windowStart), now) in PassFlags(flags, rule, ips, logs, windowStart, now)
  {
    var init := ips[..|ips| - 1];
    assert ips == init + [ips[|ips| - 1]];
    if ip != ips[|ips| - 1] {
      PassFlagsComplete(flags, rule, init, logs, windowStart, now, ip);
    }
  }

  /** Visiting the next address of distinct `ips`, with `current` the
      flags present by then: the flags appended so far are for other
      addresses, so judging the address against `current` appends what
      judging it against the flags at the start of the pass would. */
  lemma PassFlagsNext(flags: seq<SuspicionFlag>, current: seq<SuspicionFlag>, rule: Rule, ips: seq<string>, i: nat,
                      logs: seq<RequestLog>, windowStart: int, now: int)
    requires Distinct(ips) && i < |ips|
    requires current == flags + PassFlags(flags, rule, ips[..i], logs, windowStart, now)
    ensures PassFlags(flags, rule, ips[..i + 1], logs, windowStart, now)
            == PassFlags(flags, rule, ips[..i], logs, windowStart, now) + PassStep(current, rule, ips[i], logs, windowStart, now)
  {
    var ip := ips[i];
    var added := PassFlags(flags, rule, ips[..i], logs, windowStart, now);
    PassFlagsIps(flags, rule, ips[..i], logs, windowStart, now);
    assert ip !in ips[..i];
    assert ips[..i + 1][..i] == ips[..i];
    if HasRecentFlag(current, rule, ip, windowStart) {
      var f :| f in current && Suppresses(rule, f, ip, windowStart);
      assert f in flags;
    }
  }

  /** No two flags of the list are for the same address. */
  predicate OnePerIp(flags: seq<SuspicionFlag>) {
    forall i, j :: 0 <= i < j < |flags| ==> flags[i].ip != flags[j].ip
  }

  /** Over distinct addresses a pass appends at most one flag per address. */
  lemma {:induction false} PassFlagsOnePerIp(flags: seq<SuspicionFlag>, rule: Rule, ips: seq<string>,
                                            logs: seq<RequestLog>, windowStart: int, now: int)
    requires Distinct(ips)
    ensures OnePerIp(PassFlags(flags, rule, ips, logs, windowStart, now))
  {
    if ips != [] {
      var init, last := ips[..|ips| - 1], ips[|ips| - 1];
      assert ips == init + [last];
      assert last !in init;
      var prev := PassFlags(flags, rule, init, logs, windowStart, now);
      var added := PassFlags(flags, rule, ips, logs, windowStart, now);
      PassFlagsOnePerIp(flags, rule, init, logs, windowStart, now);
      PassFlagsIps(flags, rule, init, logs, windowStart, now);
      forall i, j | 0 <= i < j < |added| ensures added[i].ip != added[j].ip {
        if j >= |prev| {
          assert added[j].ip == last;
          assert added[i] == prev[i] && prev[i] in prev;
        } else {
          assert added[i] == prev[i] && added[j] == prev[j];
        }
      }
    }
  }

  /** A flag of the scan's own making covers its address for its rule. */
  lemma NewFlagSuppresses(rule: Rule, ip: string, count: nat, now: int)
    ensures Suppresses(rule, NewFlag(rule, ip, count, now), ip, now - HOUR)
  {
    if rule.SensitivePath? {
      ContainsInMiddle("Multiple attempts to ", rule.prefix, ": " + NatToString(count) + " times in last hour");
      assert Reason(rule, count)
        == "Multiple attempts to " + rule.prefix + (": " + NatToString(count) + " times in last hour");
    }
  }

  /** Volume rule, as the job states it: the pass appends the new volume
      flag for `ip` iff the address has more than 100 requests in the
      window and no flag for it, whatever its reason, was raised in the
      window; it appends nothing else and at most one flag per address. */
  lemma VolumePassExact(flags: seq<SuspicionFlag>, logs: seq<RequestLog>, now: int, ip: string)
    ensures var windowStart := now - HOUR;
      var added := Pass(flags, Volume, logs, now)[|flags|..];
      var count := Count(logs, (l: RequestLog) => l.ip == ip && windowStart <= l.timestamp);
      && (SuspicionFlag(ip, "High request volume: " + NatToString(count) + " requests in last hour", count, now, false) in added
          <==> count > 100 && !(exists f | f in flags :: f.ip == ip && windowStart <= f.flaggedAt))
      && (forall f :: f in added ==> f == NewFlag(Volume, f.ip, RuleCount(logs, Volume, f.ip, windowStart), now))
      && OnePerIp(added)
  {
    PassExactCore(flags, Volume, logs, now, ip);
    var windowStart := now - HOUR;
    CountSame(logs, (l: RequestLog) => l.ip == ip && Matches(Volume, l, windowStart),
                    (l: RequestLog) => l.ip == ip && windowStart <= l.timestamp);
    assert HasRecentFlag(flags, Volume, ip, windowStart)
       <==> (exists f | f in flags :: f.ip == ip && windowStart <= f.flaggedAt);
  }

  /** Sensitive-path rule, as the job states it: the pass for `prefix`
      appends the new path flag for `ip` iff the address has more than 10
      windowed requests whose path starts with `prefix` and no flag for it
      raised in the window mentions `prefix` in its reason. */
  lemma PathPassExact(flags: seq<SuspicionFlag>, prefix: string, logs: seq<RequestLog>, now: int, ip: string)
    ensures var windowStart := now - HOUR;
      var added := Pass(flags, SensitivePath(prefix), logs, now)[|flags|..];
      var count := Count(logs, (l: RequestLog) => l.ip == ip && windowStart <= l.timestamp && StartsWith(l.path, prefix));
      && (SuspicionFlag(ip, "Multiple attempts to " + prefix + ": " + NatToString(count) + " times in last hour", count, now, false) in added
          <==> count > 10 && !(exists f | f in flags :: f.ip == ip && windowStart <= f.flaggedAt && Contains(f.reason, prefix)))
      && (forall f :: f in added ==> f == NewFlag(SensitivePath(prefix), f.ip, RuleCount(logs, SensitivePath(prefix), f.ip, windowStart), now))
      && OnePerIp(added)
  {
    PassExactCore(flags, SensitivePath(prefix), logs, now, ip);
    var windowStart := now - HOUR;
    CountSame(logs, (l: RequestLog) => l.ip == ip && Matches(SensitivePath(prefix), l, windowStart),
                    (l: RequestLog) => l.ip == ip && windowStart <= l.timestamp && StartsWith(l.path, prefix));
    assert HasRecentFlag(flags, SensitivePath(prefix), ip, windowStart)
       <==> (exists f | f in flags :: f.ip == ip && windowStart <= f.flaggedAt && Contains(f.reason, prefix));
  }

  /** Both rules at once, in the model's own terms. */
  lemma PassExactCore(flags: seq<SuspicionFlag>, rule: Rule, logs: seq<RequestLog>, now: int, ip: string)
    ensures var windowStart := now - HOUR;
      var added := Pass(flags, rule, logs, now)[|flags|..];
      && (NewFlag(rule, ip, RuleCount(logs, rule, ip, windowStart), now) in added
          <==> IsCandidate(logs, rule, ip, windowStart) && !HasRecentFlag(flags, rule, ip, windowStart))
      && (forall f :: f in added ==> f == NewFlag(rule, f.ip, RuleCount(logs, rule, f.ip, windowStart), now))
      && OnePerIp(added)
  {
    var windowStart := now - HOUR;
    var ips := RuleIps(logs, rule, windowStart);
    var added := PassFlags(flags, rule, ips, logs, windowStart, now);
    assert Pass(flags, rule, logs, now)[|flags|..] == added;
    PassFlagsSound(flags, rule, ips, logs, windowStart, now);
    PassFlagsOnePerIp(flags, rule, ips, logs, windowStart, now);
    CandidateSelection(logs, rule, windowStart, ip);
    if IsCandidate(logs, rule, ip, windowStart) && !HasRecentFlag(flags, rule, ip, windowStart) {
      PassFlagsComplete(flags, rule, ips, logs, windowStart, now, ip);
    }
  }

  // ---------------------------------------------------------------------
  // Append-only and idempotence

  /** Every pass keeps the flags it was given as a prefix. */
  lemma {:induction false} ScanThroughExtends(flags: seq<SuspicionFlag>, logs: seq<RequestLog>, now: int, rules: seq<Rule>)
    ensures flags <= ScanThrough(flags, logs, now, rules)
  {
    if rules != [] {
      ScanThroughExtends(flags, logs, now, rules[..|rules| - 1]);
    }
  }

  /** Every candidate of `rule` is covered by a recent flag in `flags`. */
  predicate Covered(flags: seq<SuspicionFlag>, logs: seq<RequestLog>, rule: Rule, now: int) {
    var windowStart := now - HOUR;
    forall ip :: ip in RuleIps(logs, rule, windowStart) && IsCandidate(logs, rule, ip, windowStart) ==>
      HasRecentFlag(flags, rule, ip, windowStart)
  }

  /** After its pass, every candidate of a rule is covered. */
  lemma PassCovers(flags: seq<SuspicionFlag>, rule: Rule, logs: seq<RequestLog>, now: int)
    ensures Covered(Pass(flags, rule, logs, now), logs, rule, now)
  {
    var windowStart := now - HOUR;
    var ips := RuleIps(logs, rule, windowStart);
    var after := Pass(flags, rule, logs, now);
    forall ip | ip in ips && IsCandidate(logs, rule, ip, windowStart)
      ensures HasRecentFlag(after, rule, ip, windowStart)
    {
      if HasRecentFlag(flags, rule, ip, windowStart) {
        var f :| f in flags && Suppresses(rule, f, ip, windowStart);
        assert f in after;
      } else {
        PassFlagsComplete(flags, rule, ips, logs, windowStart, now, ip);
        var g := NewFlag(rule, ip, RuleCount(logs, rule, ip, windowStart), now);
        NewFlagSuppresses(rule, ip, RuleCount(logs, rule, ip, windowStart), now);
        assert g in after;
      }
    }
  }

  /** Flags appended later never uncover a candidate. */
  lemma CoveredExtends(flags: seq<SuspicionFlag>, more: seq<SuspicionFlag>, logs: seq<RequestLog>, rule: Rule, now: int)
    requires Covered(flags, logs, rule, now)
    ensures Covered(flags + more, logs, rule, now)
  {
    var windowStart := now - HOUR;
    forall ip | ip in RuleIps(logs, rule, windowStart) && IsCandidate(logs, rule, ip, windowStart)
      ensures HasRecentFlag(flags + more, rule, ip, windowStart)
    {
      var f :| f in flags && Suppresses(rule, f, ip, windowStart);
      assert f in flags + more;
    }
  }

  /** A pass over flags that already cover every candidate appends nothing. */
  lemma PassNoop(flags: seq<SuspicionFlag>, rule: Rule, logs: seq<RequestLog>, now: int)
    requires Covered(flags, logs, rule, now)
    ensures Pass(flags, rule, logs, now) == flags
  {
    var windowStart := now - HOUR;
    var ips := RuleIps(logs, rule, windowStart);
    PassFlagsEmpty(flags, rule, ips, logs, windowStart, now);
  }

  /** After running `rules`, every rule among them has all its candidates covered. */
  lemma {:induction false} ScanThroughCovers(flags: seq<SuspicionFlag>, logs: seq<RequestLog>, now: int, rules: seq<Rule>)
    ensures forall r :: r in rules ==> Covered(ScanThrough(flags, logs, now, rules), logs, r, now)
  {
    if rules != [] {
      var init, last := rules[..|rules| - 1], rules[|rules| - 1];
      assert rules == init + [last];
      var before := ScanThrough(flags, logs, now, init);
      ScanThroughCovers(flags, logs, now, init);
      PassCovers(before, last, logs, now);
      var windowStart := now - HOUR;
      var added := PassFlags(before, last, RuleIps(logs, last, windowStart), logs, windowStart, now);
      forall r | r in init ensures Covered(before + added, logs, r, now) {
        CoveredExtends(before, added, logs, r, now);
      }
    }
  }

  /** Running `rules` over flags that already cover all their candidates changes nothing. */
  lemma {:induction false} ScanThroughStable(flags: seq<SuspicionFlag>, logs: seq<RequestLog>, now: int, rules: seq<Rule>)
    requires forall r :: r in rules ==> Covered(flags, logs, r, now)
    ensures ScanThrough(flags, logs, now, rules) == flags
  {
    if rules != [] {
      var init, last := rules[..|rules| - 1], rules[|rules| - 1];
      assert rules == init + [last];
      ScanThroughStable(flags, logs, now, init);
      PassNoop(flags, last, logs, now);
    }
  }

  /** A second scan at the same instant over the same logs appends no flag. */
  lemma ScanIdempotent(flags: seq<SuspicionFlag>, logs: seq<RequestLog>, now: int)
    ensures Scan(Scan(flags, logs, now), logs, now) == Scan(flags, logs, now)
  {
    ScanThroughCovers(flags, logs, now, SCAN_RULES);
    ScanThroughStable(Scan(flags, logs, now), logs, now, SCAN_RULES);
  }

  /** A scan only appends: the earlier flags are an unchanged prefix. */
  lemma ScanAppendsOnly(flags: seq<SuspicionFlag>, logs: seq<RequestLog>, now: int)
    ensures flags <= Scan(flags, logs, now)
  {
    ScanThroughExtends(flags, logs, now, SCAN_RULES);
  }

  // ---------------------------------------------------------------------
  // Passes of one scan do not interfere

  /** Every slash of `p` is followed by two characters that differ from
      the two after the leading slash of `q`. */
  predicate SlashSafe(p: string, q: string)
    requires |q| >= 3
  {
    forall j | 0 <= j < |p| && p[j] == '/' :: j + 2 < |p| && (p[j + 1] != q[1] || p[j + 2] != q[2])
  }

  /** A prefix starting with a slash cannot occur in a text whose only
      slashes lie in a middle part that never begins it. */
  lemma NotContainsAcross(before: string, middle: string, after: string, q: string)
    requires '/' !in before && '/' !in after
    requires |q| >= 3 && q[0] == '/'
    requires SlashSafe(middle, q)
    ensures !Contains(before + middle + after, q)
  {
    var s := before + middle + after;
    forall i | 0 <= i <= |s| - |q| ensures !OccursAt(q, s, i) {
      var w := s[i..i + |q|];
      assert w[0] == s[i] && w[1] == s[i + 1] && w[2] == s[i + 2];
      if i < |before| {
        assert s[i] == before[i];
      } else if i >= |before| + |middle| {
        assert s[i] == after[i - |before| - |middle|];
      } else {
        var j := i - |before|;
        assert s[i] == middle[j];
        if middle[j] == '/' {
          assert s[i + 1] == middle[j + 1] && s[i + 2] == middle[j + 2];
        }
      }
    }
  }

  /** No sensitive prefix begins at a slash of another one. */
  lemma SensitivePathsSlashSafe()
    ensures forall p, q | p in SENSITIVE_PATHS && q in SENSITIVE_PATHS && p != q :: |q| >= 3 && SlashSafe(p, q)
  {
    var admin, login, auth := "/admin", "/login", "/api/auth";
    forall j | 0 <= j < |admin| && admin[j] == '/' ensures j == 0 {}
    forall j | 0 <= j < |login| && login[j] == '/' ensures j == 0 {}
    forall j | 0 <= j < |auth| && auth[j] == '/' ensures j == 0 || j == 4 {}
    assert SlashSafe(admin, login) && SlashSafe(admin, auth);
    assert SlashSafe(login, admin) && SlashSafe(login, auth);
    assert auth[5] == 'a' && auth[6] == 'u' && auth[1] == 'a' && auth[2] == 'p';
    assert SlashSafe(auth, admin) && SlashSafe(auth, login);
  }

  /** A volume reason mentions no sensitive prefix. */
  lemma VolumeReasonMentionsNoPrefix(count: nat, p: string)
    requires p in SENSITIVE_PATHS
    ensures !Contains(Reason(Volume, count), p)
  {
    var text := Reason(Volume, count);
    var digits := NatToString(count);
    assert text == "High request volume: " + digits + " requests in last hour";
    assert '/' !in digits;
    assert '/' !in text;
    assert text + "" + "" == text;
    NotContainsAcross(text, "", "", p);
  }

  /** A sensitive-path reason mentions no sensitive prefix but its own. */
  lemma PathReasonMentionsOnlyItsPrefix(q: string, count: nat, p: string)
    requires q in SENSITIVE_PATHS && p in SENSITIVE_PATHS && q != p
    ensures !Contains(Reason(SensitivePath(q), count), p)
  {
    var digits := NatToString(count);
    var after := ": " + digits + " times in last hour";
    assert '/' !in digits;
    assert '/' !in after;
    SensitivePathsSlashSafe();
    assert Reason(SensitivePath(q), count) == "Multiple attempts to " + q + after;
    NotContainsAcross("Multiple attempts to ", q, after, p);
  }

  /** Every flag after running `rules` was there before, or carries the
      reason of one of the rules. */
  lemma {:induction false} ScanThroughRaised(flags: seq<SuspicionFlag>, logs: seq<RequestLog>, now: int, rules: seq<Rule>)
    ensures forall f :: f in ScanThrough(flags, logs, now, rules) ==>
      f in flags || exists r :: r in rules && f.reason == Reason(r, f.requestCount)
  {
    if rules != [] {
      var init, last := rules[..|rules| - 1], rules[|rules| - 1];
      assert rules == init + [last];
      var before := ScanThrough(flags, logs, now, init);
      ScanThroughRaised(flags, logs, now, init);
      var windowStart := now - HOUR;
      PassFlagsSound(before, last, RuleIps(logs, last, windowStart), logs, windowStart, now);
    }
  }

  /** The dedup of the pass for the k-th sensitive prefix in effect sees
      only the flags from before the scan: nothing the earlier passes of
      the same scan appended mentions that prefix. */
  lemma EarlierPassesDoNotSuppress(flags: seq<SuspicionFlag>, logs: seq<RequestLog>, now: int, k: nat, ip: string)
    requires k < |SENSITIVE_PATHS|
    ensures var rule := SensitivePath(SENSITIVE_PATHS[k]);
      HasRecentFlag(ScanThrough(flags, logs, now, SCAN_RULES[..k + 1]), rule, ip, now - HOUR)
      <==> HasRecentFlag(flags, rule, ip, now - HOUR)
  {
    var prefix := SENSITIVE_PATHS[k];
    var rule := SensitivePath(prefix);
    var windowStart := now - HOUR;
    var earlier := SCAN_RULES[..k + 1];
    var before := ScanThrough(flags, logs, now, earlier);
    ScanThroughExtends(flags, logs, now, earlier);
    ScanThroughRaised(flags, logs, now, earlier);
    assert SCAN_RULES[k + 1] == rule;
    forall r | r in earlier ensures r in SCAN_RULES && r != rule {
      var i :| 0 <= i < |earlier| && earlier[i] == r;
      assert SCAN_RULES[i] == r;
    }
    forall f | f in before && f !in flags ensures !Suppresses(rule, f, ip, windowStart) {
      var r :| r in earlier && f.reason == Reason(r, f.requestCount);
      if r == Volume {
        VolumeReasonMentionsNoPrefix(f.requestCount, prefix);
      } else {
        PathReasonMentionsOnlyItsPrefix(r.prefix, f.requestCount, prefix);
      }
    }
    if HasRecentFlag(flags, rule, ip, windowStart) {
      var f :| f in flags && Suppresses(rule, f, ip, windowStart);
      assert f in before;
    }
  }

  /** Sensitive-path rule within a whole scan: the pass for the k-th prefix
      appends the new path flag for `ip` iff the address is a candidate and
      no flag from before the scan covers it; the volume flag the same scan
      may have raised for it does not count. */
  lemma ScanPathPassExact(flags: seq<SuspicionFlag>, logs: seq<RequestLog>, now: int, k: nat, ip: string)
    requires k < |SENSITIVE_PATHS|
    ensures var rule := SensitivePath(SENSITIVE_PATHS[k]);
      var windowStart := now - HOUR;
      var before := ScanThrough(flags, logs, now, SCAN_RULES[..k + 1]);
      var after := ScanThrough(flags, logs, now, SCAN_RULES[..k + 2]);
      && before <= after
      && (NewFlag(rule, ip, RuleCount(logs, rule, ip, windowStart), now) in after[|before|..]
          <==> IsCandidate(logs, rule, ip, windowStart) && !HasRecentFlag(flags, rule, ip, windowStart))
  {
    var rule := SensitivePath(SENSITIVE_PATHS[k]);
    var before := ScanThrough(flags, logs, now, SCAN_RULES[..k + 1]);
    assert SCAN_RULES[..k + 2][..k + 1] == SCAN_RULES[..k + 1];
    assert SCAN_RULES[k + 1] == rule;
    assert ScanThrough(flags, logs, now, SCAN_RULES[..k + 2]) == Pass(before, rule, logs, now);
    PassExactCore(before, rule, logs, now, ip);
    EarlierPassesDoNotSuppress(flags, logs, now, k, ip);
  }
}
