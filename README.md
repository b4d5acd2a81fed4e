# ip_tracking: a Dafny model of the detection jobs and the block-list admin

This project models two parts of the `ip_tracking` Django application:

- The three periodic jobs of `ip_tracking/tasks.py`:
  - `detect_anomalies` raises suspicion flags. The volume rule flags more
    than 100 requests in the last hour. The sensitive-path rule flags more
    than 10 requests in the last hour whose path starts with `/admin`,
    `/login` or `/api/auth`. Neither rule flags an address that already has
    a recent flag covering it.
  - `cleanup_old_logs` deletes request logs older than thirty days.
  - `auto_block_suspicious_ips` handles every address with at least three
    unresolved flags that is not blocked yet. It asks the block registry for
    a 24-hour block and resolves the address's flags.
- The block-list administration of `ip_tracking/admin.py`: the column
  helpers, and the bulk actions `make_permanent`, `extend_24h` and
  `remove_blocks`.

Module layout:

- `Common`: optional values, time units, counting, the `__startswith` and
  `__contains` lookups, and decimal rendering of counts.
- `Records`: the stored records (request log, suspicion flag, block entry,
  blocked attempt) and the block-call record.
- `Detection`, `Retention`, `Escalation`: each job as specification
  functions, with the lemmas that state what the job promises.
- `Tasks`: the class `TrackingStore`. It holds the request-log and flag
  tables as sequences. Its methods run the jobs step by step, the way the
  source loops over query results. Each method is proved equal to its
  specification function.
- `Admin`: the display helpers as functions. The class `BlockTable` holds the
  block table as a map from primary key to entry. Its methods are the three
  bulk actions.

Time is whole seconds. Every operation that reads the clock takes the
current instant as the parameter `now`.

## Model

| member | source | states |
|---|---|---|
| Tasks.TrackingStore.DetectAnomalies | ip_tracking/tasks.py:12-83 | the flag table after the job is the one scan of the volume pass then the three path passes over the old table; request logs are untouched; old flags are kept as a prefix; the returned count is the number of flags appended |
| Tasks.TrackingStore.RunRule | ip_tracking/tasks.py:27-49 | one rule's pass (grouped query, threshold filter, dedup, create) leaves exactly the table `Pass` describes and returns how many flags it created |
| Tasks.TrackingStore.FlagCandidates | ip_tracking/tasks.py:63-79 | the loop over grouped addresses appends exactly the flags the pass specification appends over those addresses, each judged against the live table |
| Tasks.TrackingStore.FlagIfUncovered | ip_tracking/tasks.py:64-79 | for one address the loop body appends the new flag iff the count exceeds the threshold and no recent covering flag exists in the current table, and reports whether it did |
| Tasks.TrackingStore.CleanupOldLogs | ip_tracking/tasks.py:92-99 | the log table keeps exactly the logs stamped at or after now minus 30 days, in order; the returned number is the number of older logs, which is the number removed; flags are untouched |
| Tasks.TrackingStore.ResolveFlagsOf | ip_tracking/tasks.py:133-135 | every unresolved flag of the address becomes resolved; nothing else changes |
| Tasks.TrackingStore.AutoBlockSuspiciousIps | ip_tracking/tasks.py:103-138 | the calls made are the 24-hour "System" block calls for the escalation targets in visiting order; the count returned is the number of calls; the flag table is the old one with exactly the targets' flags resolved |
| Detection.RuleIps | ip_tracking/tasks.py:27-31 | the grouped query yields each address at most once |
| Detection.RuleIpsMembership | ip_tracking/tasks.py:27-31 | an address is among the grouped rows iff it has at least one matching log in the window |
| Detection.CandidateSelection | ip_tracking/tasks.py:56-61 | an address survives the `count > threshold` filter iff its windowed matching count exceeds the threshold |
| Detection.PassFlagsSound | ip_tracking/tasks.py:33-48 | every flag a pass appends is for a visited candidate that had no recent covering flag, with that address, the rule's reason, the count and the scan instant |
| Detection.PassFlagsComplete | ip_tracking/tasks.py:38-48 | every visited candidate without a recent covering flag gets its new flag |
| Detection.PassFlagsEmpty | ip_tracking/tasks.py:38-48 | a pass appends nothing when every visited candidate is already covered |
| Detection.PassFlagsNext | ip_tracking/tasks.py:67-78 | judging an address against the live table, which includes the flags this pass has already created, gives the same result as judging it against the table at the start of the pass |
| Detection.PassFlagsOnePerIp | ip_tracking/tasks.py:63-78 | over the grouped addresses a pass creates at most one flag per address |
| Detection.NewFlagSuppresses | ip_tracking/tasks.py:67-78 | a flag the scan has just created is recent and, for a path rule, its reason contains the prefix; so it covers its address |
| Detection.VolumePassExact | ip_tracking/tasks.py:27-49 | the volume pass appends the flag "High request volume: N requests in last hour" (N the windowed count) for an address iff N > 100 and no flag for the address was raised in the last hour; it appends nothing else, at most one per address |
| Detection.PathPassExact | ip_tracking/tasks.py:55-80 | the pass for a prefix appends "Multiple attempts to P: N times in last hour" iff N > 10 windowed requests start with P and no recent flag of the address has a reason containing P; it appends nothing else, at most one per address |
| Detection.PassExactCore | ip_tracking/tasks.py:33-79 | both rules in one statement: new flag appended iff candidate and uncovered; only new flags of the rule; one per address |
| Detection.ScanThroughExtends | ip_tracking/tasks.py:44-48 | passes only create flags: the flags before are a prefix of the flags after |
| Detection.ScanAppendsOnly | ip_tracking/tasks.py:44-78 | a whole scan keeps the earlier flag table as an unchanged prefix |
| Detection.PassCovers | ip_tracking/tasks.py:38-48 | after a rule's pass every candidate of that rule is covered by a recent flag |
| Detection.CoveredExtends | ip_tracking/tasks.py:67-71 | flags created later never uncover a candidate |
| Detection.PassNoop | ip_tracking/tasks.py:38-48 | a pass over a table that covers all its candidates changes nothing |
| Detection.ScanThroughCovers | ip_tracking/tasks.py:26-80 | after the passes run, every rule among them has all its candidates covered |
| Detection.ScanThroughStable | ip_tracking/tasks.py:26-80 | running passes whose candidates are all covered changes nothing |
| Detection.ScanIdempotent | ip_tracking/tasks.py:12-83 | a second scan at the same instant over the same logs creates no flag |
| Detection.NotContainsAcross | ip_tracking/tasks.py:70 | a slash-led prefix cannot occur in a text whose slashes all lie in a middle part that never starts it |
| Detection.SensitivePathsSlashSafe | ip_tracking/tasks.py:53 | no sensitive prefix starts at a slash of another sensitive prefix |
| Detection.VolumeReasonMentionsNoPrefix | ip_tracking/tasks.py:46 | a volume reason contains none of the sensitive prefixes |
| Detection.PathReasonMentionsOnlyItsPrefix | ip_tracking/tasks.py:76 | a path reason contains no sensitive prefix other than its own |
| Detection.ScanThroughRaised | ip_tracking/tasks.py:44-78 | every flag after the passes was there before or carries the reason one of the rules writes |
| Detection.EarlierPassesDoNotSuppress | ip_tracking/tasks.py:52-80 | for the k-th prefix's pass, the table left by the earlier passes of the same scan covers an address iff the table from before the scan did |
| Detection.ScanPathPassExact | ip_tracking/tasks.py:55-80 | within a whole scan, the k-th prefix's pass appends the address's new path flag iff it is a candidate and no flag from before the scan covers it; the scan's own volume flag does not suppress it |
| Common.NatToString | ip_tracking/tasks.py:46 | the rendered count is a non-empty string of decimal digits |
| Common.NatToStringRoundTrip | ip_tracking/tasks.py:46-47 | the number written into a flag's reason reads back as the flag's request count |
| Retention.RetainedExact | ip_tracking/tasks.py:92-96 | the prune keeps every copy of every log stamped at or after the cutoff, boundary included, and none stamped before it |
| Retention.RetainedSize | ip_tracking/tasks.py:94-99 | kept plus reported-deleted equals the size of the original log |
| Escalation.FlaggedIps | ip_tracking/tasks.py:111-115 | the grouped query over unresolved flags yields each address once |
| Escalation.FlaggedIpsMembership | ip_tracking/tasks.py:111-115 | an address is grouped iff it has an unresolved flag |
| Escalation.TargetsMembership | ip_tracking/tasks.py:118-122 | an address is blocked by the loop iff it is visited, has at least three unresolved flags and is not blocked |
| Escalation.TargetsDistinct | ip_tracking/tasks.py:118-122 | the loop blocks no address twice |
| Escalation.EscalationTargetsExact | ip_tracking/tasks.py:110-122 | the job blocks exactly the addresses with at least three unresolved flags that the registry does not report as blocked, each once |
| Escalation.AutoBlockCallsCount | ip_tracking/tasks.py:122-129 | each target gets exactly one call with the fixed reason, issuer and 24 hours; other addresses get none |
| Escalation.AutoBlockCallsExact | ip_tracking/tasks.py:117-129 | an address gets one call iff it has at least three unresolved flags and is not blocked, otherwise none; all calls are the fixed 24-hour "System" call; the number of calls is the number of targets |
| Escalation.ResolveAllAt | ip_tracking/tasks.py:121-135 | a flag of a blocked target becomes resolved and nothing else about it changes; flags of other addresses, an already blocked one included, stay as they were |
| Escalation.UnresolvedAfterResolve | ip_tracking/tasks.py:133-135 | after resolution a target has no unresolved flag and every other address keeps its count |
| Escalation.UnresolvedAfterEscalation | ip_tracking/tasks.py:121-135 | a newly blocked address ends with zero unresolved flags; every other address keeps its unresolved flags |
| Escalation.EscalatedNotSelectedAgain | ip_tracking/tasks.py:110-135 | an address the job blocked is never selected by a later run over the resolved flags, whatever the registry then says |
| Admin.ReasonShort | ip_tracking/admin.py:106-110 | a missing or empty reason shows "-"; otherwise the reason if at most 50 characters, else its first 50 characters followed by "..." |
| Admin.ExpiresAtDisplay | ip_tracking/admin.py:113-132 | "Permanent" iff there is no expiry; "Expired" iff the entry is expired; otherwise whole hours and minutes (minutes below 60) that account for the time left to within a minute |
| Admin.StatusBadge | ip_tracking/admin.py:136-147 | the badge reads EXPIRED iff the entry is expired, ACTIVE otherwise; a permanent block is always ACTIVE |
| Admin.IpAddressColored | ip_tracking/admin.py:88-102 | the address is shown gray iff the entry is expired, red otherwise; a permanent block is always red |
| Admin.StatusHelpersAgree | ip_tracking/admin.py:136-147 | the status badge, the address colour and the expiry column agree on expiry; a permanent block shows as active |
| Admin.AttemptCount | ip_tracking/admin.py:150-158 | "-" iff the entry has no recorded attempt, otherwise the number of its attempts |
| Admin.AttemptsSamePath | ip_tracking/admin.py:245-257 | the count of the same entry's attempts to the same path, highlighted iff above 5; an attempt counts itself; never more than the entry's attempts |
| Admin.MadePermanent | ip_tracking/admin.py:165 | the entry loses its expiry, never expires again, and nothing else changes |
| Admin.Extended | ip_tracking/admin.py:177-181 | the entry ends up with an expiry; a temporary expiry moves strictly later; an active block stays active for the next 24 hours; nothing but the expiry changes |
| Admin.BlockTable.MakePermanent | ip_tracking/admin.py:163-169 | selected rows become permanent, others are untouched, no row is added or removed; the count is the number of selected rows in the table |
| Admin.BlockTable.Extend24h | ip_tracking/admin.py:172-188 | selected rows are extended, others are untouched, no row is added or removed; the count is the number of selected rows in the table |
| Admin.BlockTable.ExtendRow | ip_tracking/admin.py:178-182 | one row is replaced by its extension |
| Admin.BlockTable.RemoveBlocks | ip_tracking/admin.py:191-198 | the table loses exactly the selected rows; the count is the number of selected rows present, which is the number removed |

## Left out

- Celery scheduling, logging, `message_user` and the HTML of `format_html`
  are not modelled. The display helpers return datatypes (`ExpiryDisplay`,
  `Badge`, `Tint`, `AttemptDisplay`, `SamePathDisplay`) instead of markup.
  The icons and colours are not modelled.
- The ORM is not modelled. Tables are sequences or maps. A query's group-by
  order is taken to be the order of first appearance; Django leaves that
  order unspecified.
- The block registry's `is_blocked` and `block_ip` belong to the
  `BlockedIP` model, which is not part of this model. The registry is a
  read-only map, `IsBlocked` is "present and not expired", and block
  requests are returned as `BlockCall` records. Whatever `block_ip` and
  `is_blocked` do to the registry (an upsert, reaping of expired entries)
  and any cascade from block entries to their attempts are not modelled;
  the definitions of `BlockedIP` and `BlockedAttempt` are not among the
  source files.
- Tasks.TrackingStore.AutoBlockSuspiciousIps: reads the registry as it was
  when the run began. The source asks it again for each address. Each
  address is visited once, so the job's own block calls cannot change the
  answer for a later address. Other writers running at the same time could,
  and those are left out.
- Tasks.TrackingStore.DetectAnomalies: a new flag's `flaggedAt` is the
  scan instant `now`. The one-hour window is also computed once from that
  instant, as the source does. Writes by other processes during a scan are
  left out.
- Admin.BlockTable.Extend24h: uses one instant `now` for every permanent
  row. The source reads the clock again for each row.
- Admin.ExpiresAtDisplay: time is whole seconds, not floating point. The
  model uses one instant for both clock readings: the expiry test and the
  time-left computation. With that single instant the time left is
  non-negative on this branch, so the source's truncating `int(...)`
  equals the floor division used here. The source reads the clock twice.
  If the entry expires between the two readings, the time left is slightly
  negative and Python's float `%` would show "0h 59m remaining". The model
  does not capture that case.
- `StartsWith` and `Contains` are case-sensitive, as Django documents
  `__startswith` and `__contains`. Some database back ends, such as
  SQLite, match these lookups without regard to ASCII case. The database
  in use is not part of this model, so case-insensitive matching is left
  out.
- `views.py` (the JSON endpoints `ip_statistics`, `block_ip_api`,
  `list_blocked_ips` and `list_suspicious_ips`) and `urls.py` (routing)
  are not part of this model. The request-logging and blocking middleware
  is not among the source files either. The 255-character path
  limit and address validation are left out too.
- `blocked_ip_link` in `admin.py` only builds a URL, so it is not modelled.
- Concurrency between jobs and admin actions is not modelled.

Where the documentation and the code differ, the model follows the code:

- The comment above the escalation query says "more than 3"; the code
  selects a count of at least 3 (`flag_count__gte=3`).
- The `detect_anomalies` docstring lists `/admin` and `/login`; the code
  also scans `/api/auth`.

An already blocked address keeps its unresolved flags: the code resolves
them only inside the "not already blocked" branch (tasks.py:122-135).
`Escalation.UnresolvedAfterEscalation` states this.
