/** The stored records of the tracking application and the assumptions
    made about the block registry, whose model class is not part of this
    model.

    - `RequestLog` is one row of the request log (address, instant, path).
    - `SuspicionFlag` is one row of the suspicion tracker.
    - `BlockEntry` is one row of the block registry; `expiresAt == None`
      means a permanent block.
    - `BlockedAttempt` is one recorded access attempt by a blocked address,
      referring to its block entry by primary key.
    - `BlockCall` is one call of the registry's block operation, with the
      arguments the caller passes. */
module Records {
  import opened Common

  datatype RequestLog = RequestLog(ip: string, timestamp: int, path: string)

  datatype SuspicionFlag = SuspicionFlag(
    ip: string,
    reason: string,
    requestCount: nat,
    flaggedAt: int,
    isResolved: bool)

  datatype BlockEntry = BlockEntry(
    ip: string,
    reason: Option<string>,
    blockedBy: string,
    blockedAt: int,
    expiresAt: Option<int>)

  datatype BlockedAttempt = BlockedAttempt(blockId: nat, path: string, timestamp: int)

  datatype BlockCall = BlockCall(ip: string, reason: string, blockedBy: string, durationHours: nat)

  /** Assumed meaning of a block entry's expiry test: a temporary block
      whose expiry instant lies strictly in the past. */
  predicate IsExpired(e: BlockEntry, now: int) {
    e.expiresAt.Some? && now > e.expiresAt.value
  }

  /** Assumed meaning of the registry's "is this address blocked" query:
      an entry exists for the address and it has not expired. */
  predicate IsBlocked(registry: map<string, BlockEntry>, ip: string, now: int) {
    ip in registry && !IsExpired(registry[ip], now)
  }
}
