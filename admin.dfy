/** The block-list administration: the column helpers of the block list
    and of the blocked-attempt list, and the three bulk actions on
    selected block entries. Helpers that read the clock take `now`. */
module Admin {
  import opened Common
  import opened Records

  const REASON_PREVIEW: nat := 50
  const ATTEMPT_HIGHLIGHT: nat := 5

  // ---------------------------------------------------------------------
  // Column helpers of the block list

  /** The reason column: a dash for a missing or empty reason, otherwise
      the reason cut to its first 50 characters, "..." marking a cut. */
  function ReasonShort(reason: Option<string>): (r: string)
    ensures reason.None? || reason.value == [] ==> r == "-"
    ensures reason.Some? && reason.value != [] ==>
      var text := reason.value;
      && |r| <= REASON_PREVIEW + 3
      && (if |text| <= REASON_PREVIEW then text else text[..REASON_PREVIEW]) <= r
      && (|text| <= REASON_PREVIEW ==> r == text)
      && (|text| > REASON_PREVIEW ==> r[REASON_PREVIEW..] == "...")
  {
    match reason
    case Some(text) =>
      if text != [] then
        text[..if |text| < REASON_PREVIEW then |text| else REASON_PREVIEW]
        + (if |text| > REASON_PREVIEW then "..." else "")
      else "-"
    case None => "-"
  }

  datatype ExpiryDisplay = Permanent | Expired | Remaining(hours: nat, minutes: nat)

  /** The expiry column. A missing expiry reads "Permanent" (tested
      first), an expired block reads "Expired", and otherwise the time left
      is split into whole hours and the whole minutes of the last hour. */
  function ExpiresAtDisplay(e: BlockEntry, now: int): (d: ExpiryDisplay)
    ensures d == Permanent <==> e.expiresAt.None?
    ensures d == Expired <==> IsExpired(e, now)
    ensures d.Remaining? ==>
      var left := e.expiresAt.value - now;
      && d.minutes < 60
      && d.hours * HOUR + d.minutes * 60 <= left < d.hours * HOUR + d.minutes * 60 + 60
  {
    if e.expiresAt.None? then Permanent
    else if IsExpired(e, now) then Expired
    else
      var left := e.expiresAt.value - now;
      Remaining(left / HOUR, (left % HOUR) / 60)
  }

  datatype Badge = ActiveBadge | ExpiredBadge
  datatype Tint = ActiveRed | ExpiredGray

  /** The status column: EXPIRED for an expired block, ACTIVE otherwise. */
  function StatusBadge(e: BlockEntry, now: int): (b: Badge)
    ensures b == ExpiredBadge <==> IsExpired(e, now)
    ensures b == ActiveBadge <==> !IsExpired(e, now)
    ensures e.expiresAt.None? ==> b == ActiveBadge
  {
    if IsExpired(e, now) then ExpiredBadge else ActiveBadge
  }

  /** The colour of the address column: gray for an expired block, red otherwise. */
  function IpAddressColored(e: BlockEntry, now: int): (t: Tint)
    ensures t == ExpiredGray <==> IsExpired(e, now)
    ensures t == ActiveRed <==> !IsExpired(e, now)
    ensures e.expiresAt.None? ==> t == ActiveRed
  {
    if IsExpired(e, now) then ExpiredGray else ActiveRed
  }

  /** The three expiry-dependent columns never contradict each other, and
      a permanent block always shows as active. */
  lemma StatusHelpersAgree(e: BlockEntry, now: int)
    ensures StatusBadge(e, now) == ExpiredBadge <==> IpAddressColored(e, now) == ExpiredGray
    ensures StatusBadge(e, now) == ExpiredBadge <==> ExpiresAtDisplay(e, now) == Expired
    ensures ExpiresAtDisplay(e, now) == Permanent ==> StatusBadge(e, now) == ActiveBadge
  {
  }

  /** The number of recorded attempts of the block entry with key `blockId`. */
  function AttemptsOf(attempts: seq<BlockedAttempt>, blockId: nat): nat {
    Count(attempts, (a: BlockedAttempt) => a.blockId == blockId)
  }

  datatype AttemptDisplay = NoAttempts | Attempts(count: nat)

  /** The attempts column: a dash when the entry has no recorded attempt,
      the number of attempts otherwise. */
  function AttemptCount(attempts: seq<BlockedAttempt>, blockId: nat): (d: AttemptDisplay)
    ensures d == NoAttempts <==> forall a :: a in attempts ==> a.blockId != blockId
    ensures d.Attempts? ==> d.count == AttemptsOf(attempts, blockId)
  {
    CountPositive(attempts, (a: BlockedAttempt) => a.blockId == blockId);
    var count := AttemptsOf(attempts, blockId);
    if count > 0 then Attempts(count) else NoAttempts
  }

  // ---------------------------------------------------------------------
  // Column helper of the blocked-attempt list

  datatype SamePathDisplay = SamePathDisplay(count: nat, highlighted: bool)

  /** The "attempts to this path" column of attempt `a`: how many attempts
      of the same block entry went to the same path, highlighted above 5.
      The attempt itself is among them, and they never outnumber the
      entry's attempts. */
  function AttemptsSamePath(attempts: seq<BlockedAttempt>, a: BlockedAttempt): (d: SamePathDisplay)
    ensures d.count == Count(attempts, (b: BlockedAttempt) => b.blockId == a.blockId && b.path == a.path)
    ensures d.highlighted <==> d.count > ATTEMPT_HIGHLIGHT
    ensures a in attempts ==> d.count >= 1
    ensures d.count <= AttemptsOf(attempts, a.blockId)
  {
    var samePath := (b: BlockedAttempt) => b.blockId == a.blockId && b.path == a.path;
    CountPositive(attempts, samePath);
    CountMonotone(attempts, samePath, (b: BlockedAttempt) => b.blockId == a.blockId);
    var count := Count(attempts, samePath);
    SamePathDisplay(count, count > ATTEMPT_HIGHLIGHT)
  }

  // ---------------------------------------------------------------------
  // Bulk actions

  /** A block entry made permanent: no expiry, so it never expires, and
      nothing else about it changes. */
  function MadePermanent(e: BlockEntry): (p: BlockEntry)
    ensures p.expiresAt.None?
    ensures p.(expiresAt := e.expiresAt) == e
    ensures forall t :: !IsExpired(p, t)
  {
    e.(expiresAt := None)
  }

  /** A block entry extended by 24 hours at `now`. It always ends up
      temporary (a permanent block included); a temporary expiry only moves
      later; a block active at `now` stays active for at least the next 24
      hours; and nothing but the expiry changes. */
  function Extended(e: BlockEntry, now: int): (x: BlockEntry)
    ensures x.expiresAt.Some?
    ensures x.(expiresAt := e.expiresAt) == e
    ensures e.expiresAt.Some? ==> x.expiresAt.value > e.expiresAt.value
    ensures !IsExpired(e, now) ==> forall t :: t <= now + DAY ==> !IsExpired(x, t)
  {
    match e.expiresAt
    case Some(expiry) => e.(expiresAt := Some(expiry + DAY))
    case None => e.(expiresAt := Some(now + DAY))
  }

  /** The table after the rows keyed by `ids` have been extended. */
  function ExtendedRows(rows: map<nat, BlockEntry>, ids: set<nat>, now: int): (r: map<nat, BlockEntry>)
    ensures r.Keys == rows.Keys
  {
    map id | id in rows :: if id in ids then Extended(rows[id], now) else rows[id]
  }

  /** Extending one more row of the table. */
  lemma ExtendedRowsStep(rows: map<nat, BlockEntry>, ids: set<nat>, id: nat, now: int)
    requires id in rows && id !in ids
    ensures ExtendedRows(rows, ids, now)[id] == rows[id]
    ensures ExtendedRows(rows, ids, now)[id := Extended(rows[id], now)] == ExtendedRows(rows, ids + {id}, now)
    ensures |ids + {id}| == |ids| + 1
  {
  }

  /** The block registry table, keyed by primary key. A selection is a set
      of keys; the rows it denotes are those whose key is in the table. */
  class BlockTable {
    var rows: map<nat, BlockEntry>

    constructor (rows0: map<nat, BlockEntry>)
      ensures rows == rows0
    {
      rows := rows0;
    }

    /** `make_permanent`: clear the expiry of the selected rows; reports
        how many rows the update touched. */
    method MakePermanent(selection: set<nat>) returns (count: nat)
      modifies this
      ensures rows.Keys == old(rows).Keys
      ensures forall id :: id in rows ==>
        rows[id] == if id in selection then MadePermanent(old(rows)[id]) else old(rows)[id]
      ensures count == |selection * old(rows).Keys|
    {
      count := |selection * rows.Keys|;
      rows := map id | id in rows :: if id in selection then rows[id].(expiresAt := None) else rows[id];
    }

    /** `extend_24h`: one selected row at a time, push a temporary expiry
        24 hours later or give a permanent row an expiry 24 hours from now;
        reports how many rows were extended. */
    method Extend24h(selection: set<nat>, now: int) returns (extended: nat)
      modifies this
      ensures rows.Keys == old(rows).Keys
      ensures forall id :: id in rows ==>
        rows[id] == if id in selection then Extended(old(rows)[id], now) else old(rows)[id]
      ensures extended == |selection * old(rows).Keys|
    {
      var pending := selection * rows.Keys;
      ghost var done: set<nat> := {};
      extended := 0;
      while pending != {}
        invariant pending !! done && pending + done == selection * old(rows).Keys
        invariant rows == ExtendedRows(old(rows), done, now)
        invariant extended == |done|
        decreases pending
      {
        var id :| id in pending;
        ExtendedRowsStep(old(rows), done, id, now);
        ExtendRow(id, now);
        extended := extended + 1;
        pending := pending - {id};
        done := done + {id};
      }
      assert done == selection * old(rows).Keys;
    }

    /** The body of `extend_24h` for one row: a temporary expiry moves 24
        hours later, a permanent row gets an expiry 24 hours from now. */
    method ExtendRow(id: nat, now: int)
      requires id in rows
      modifies this
      ensures rows == old(rows)[id := Extended(old(rows)[id], now)]
    {
      var entry := rows[id];
      if entry.expiresAt.Some? {
        entry := entry.(expiresAt := Some(entry.expiresAt.value + DAY));
      } else {
        entry := entry.(expiresAt := Some(now + DAY));
      }
      rows := rows[id := entry];
    }

    /** `remove_blocks`: count the selected rows, then delete them. */
    method RemoveBlocks(selection: set<nat>) returns (count: nat)
      modifies this
      ensures rows == old(rows) - selection
      ensures count == |selection * old(rows).Keys|
      ensures count == |old(rows)| - |rows|
    {
      count := |selection * rows.Keys|;
      var kept := rows.Keys - selection;
      assert rows.Keys == kept + selection * rows.Keys;
      rows := rows - selection;
      assert rows.Keys == kept;
    }
  }
}
