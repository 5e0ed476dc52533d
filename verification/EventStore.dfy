/** The `events` and `worker_log` tables of the event bus, and the transactions that update them.
    A `BEGIN IMMEDIATE` block or a `with conn:` block is one atomic step. */
module EventStore {
  import opened Options
  import opened OrderedSelect

  type EventId = string
  type WorkerId = string

  /** The columns of `events` that claiming, acking and failing read or write. */
  datatype Row = Row(
    channel: string,
    recordedAt: int,
    processed: bool,
    attempts: nat,
    lastError: Option<string>,
    claimedBy: Option<WorkerId>,
    leaseExpires: Option<int>)

  datatype LogRow = LogRow(worker: WorkerId, event: EventId, error: string)

  datatype NewEvent = NewEvent(id: EventId, channel: string, recordedAt: int)

  type Table = map<EventId, Row>

  /** `datetime('now')` keeps whole seconds only. */
  function Stamp(t: real): int {
    t.Floor
  }

  /** The `WHERE` clause of the claim. A claimed row whose lease column is NULL never matches. */
  predicate Free(r: Row, channel: string, now: real) {
    && r.channel == channel
    && !r.processed
    && (r.claimedBy.None? || (r.leaseExpires.Some? && r.leaseExpires.value < Stamp(now)))
  }

  function FreeIds(rows: Table, channel: string, now: real): set<EventId> {
    set e | e in rows && Free(rows[e], channel, now)
  }

  function RecordedAt(rows: Table): EventId -> int {
    e => if e in rows then rows[e].recordedAt else 0
  }

  function AfterClaim(rows: Table, picked: seq<EventId>, w: WorkerId, expires: int): Table {
    map e | e in rows ::
      if e in picked then rows[e].(claimedBy := Some(w), leaseExpires := Some(expires)) else rows[e]
  }

  function AfterAck(rows: Table, e: EventId): Table {
    if e !in rows then rows else rows[e := rows[e].(processed := true, claimedBy := None, leaseExpires := None)]
  }

  function AfterFail(rows: Table, e: EventId, error: string): Table {
    if e !in rows then rows else
      var r := rows[e];
      rows[e := r.(attempts := r.attempts + 1, lastError := Some(error), claimedBy := None, leaseExpires := None)]
  }

  function FreshRow(n: NewEvent): Row {
    Row(n.channel, n.recordedAt, false, 0, None, None, None)
  }

  /** A batch goes in row by row; a row whose id is already in the table breaks the primary key. */
  predicate Insertable(rows: Table, batch: seq<NewEvent>) {
    batch == [] ||
    var front, last := batch[..|batch| - 1], batch[|batch| - 1];
    Insertable(rows, front) && last.id !in AfterInsert(rows, front)
  }

  function AfterInsert(rows: Table, batch: seq<NewEvent>): Table {
    if batch == [] then rows
    else AfterInsert(rows, batch[..|batch| - 1])[batch[|batch| - 1].id := FreshRow(batch[|batch| - 1])]
  }

  ghost function Ids(batch: seq<NewEvent>): set<EventId> {
    set n | n in batch :: n.id
  }

  /** The event as it is before anybody has touched it. */
  predicate Untouched(r: Row, n: NewEvent) {
    && r.channel == n.channel && r.recordedAt == n.recordedAt
    && !r.processed && r.attempts == 0 && r.lastError.None? && r.claimedBy.None? && r.leaseExpires.None?
  }

  /** An insertable batch adds exactly its own rows, unclaimed and unprocessed, and touches no other. */
  lemma {:induction false} InsertAdds(rows: Table, batch: seq<NewEvent>)
    requires Insertable(rows, batch)
    ensures AfterInsert(rows, batch).Keys == rows.Keys + Ids(batch)
    ensures forall e :: e in rows ==> AfterInsert(rows, batch)[e] == rows[e]
    ensures forall n :: n in batch ==> n.id !in rows && Untouched(AfterInsert(rows, batch)[n.id], n)
  {
    if batch != [] {
      var front, last := batch[..|batch| - 1], batch[|batch| - 1];
      InsertAdds(rows, front);
      assert batch == front + [last];
      IdsMore(front, last);
      forall n | n in batch ensures n.id !in rows && Untouched(AfterInsert(rows, batch)[n.id], n) {
        if n in front {
          assert n.id in AfterInsert(rows, front);
        }
      }
    }
  }

  /** A batch is refused exactly when some id is in the table already or occurs twice. */
  lemma {:induction false} InsertableExactly(rows: Table, batch: seq<NewEvent>)
    ensures Insertable(rows, batch) <==>
              && (forall n :: n in batch ==> n.id !in rows)
              && (forall i, j :: 0 <= i < j < |batch| ==> batch[i].id != batch[j].id)
  {
    if batch != [] {
      var k := |batch| - 1;
      var front, last := batch[..k], batch[k];
      assert batch == front + [last];
      InsertableExactly(rows, front);
      if Insertable(rows, front) {
        InsertAdds(rows, front);
        IdsExactly(front, last.id);
      }
    }
  }

  lemma BatchAdded(rows: Table, batch: seq<NewEvent>, after: Table)
    requires Insertable(rows, batch) && after == AfterInsert(rows, batch)
    ensures after.Keys == rows.Keys + (set n | n in batch :: n.id)
    ensures forall e :: e in rows ==> after[e] == rows[e]
    ensures forall n :: n in batch ==>
              && after[n.id].channel == n.channel && after[n.id].recordedAt == n.recordedAt
              && !after[n.id].processed && after[n.id].attempts == 0 && after[n.id].lastError.None?
              && after[n.id].claimedBy.None? && after[n.id].leaseExpires.None?
  {
    InsertAdds(rows, batch);
    assert Ids(batch) == set n | n in batch :: n.id;
  }

  lemma IdsExactly(batch: seq<NewEvent>, id: EventId)
    ensures id in Ids(batch) <==> exists i :: 0 <= i < |batch| && batch[i].id == id
  {
    if id in Ids(batch) {
      var n :| n in batch && n.id == id;
      var i :| 0 <= i < |batch| && batch[i] == n;
    }
  }

  lemma IdsMore(front: seq<NewEvent>, last: NewEvent)
    ensures Ids(front + [last]) == Ids(front) + {last.id}
    ensures forall n :: n in front ==> n.id in Ids(front)
  {
    assert forall n :: n in front + [last] <==> n in front || n == last;
  }

  lemma {:induction false} InsertablePrefix(rows: Table, batch: seq<NewEvent>, i: nat)
    requires i <= |batch| && Insertable(rows, batch)
    ensures Insertable(rows, batch[..i])
  {
    if i < |batch| {
      InsertablePrefix(rows, batch[..|batch| - 1], i);
      assert batch[..|batch| - 1][..i] == batch[..i];
    } else {
      assert batch[..i] == batch;
    }
  }

  /** A row the claim may take at this second. */
  predicate Takeable(r: Row, channel: string, second: int) {
    && r.channel == channel && !r.processed
    && match r.claimedBy
       case None => true
       case Some(_) => match r.leaseExpires case None => false case Some(expires) => expires < second
  }

  lemma ClaimTakesOldest(rows: Table, channel: string, now: real, limit: int, picked: seq<EventId>)
    requires OldestFirst(FreeIds(rows, channel, now), RecordedAt(rows), limit, picked)
    ensures forall e :: e in picked ==> e in rows && Takeable(rows[e], channel, now.Floor)
    ensures forall i, j :: 0 <= i < j < |picked| ==> rows[picked[i]].recordedAt <= rows[picked[j]].recordedAt
    ensures forall e :: e in rows && Takeable(rows[e], channel, now.Floor) && e !in picked ==>
              |picked| == limit && forall x :: x in picked ==> rows[x].recordedAt <= rows[e].recordedAt
  {
    var free, key := FreeIds(rows, channel, now), RecordedAt(rows);
    assert forall e :: e in picked ==> e in rows && key(e) == rows[e].recordedAt;
    assert forall i, j :: 0 <= i < j < |picked| ==> key(picked[i]) <= key(picked[j]);
    forall e | e in rows && Takeable(rows[e], channel, now.Floor) && e !in picked
      ensures |picked| == limit && forall x :: x in picked ==> rows[x].recordedAt <= rows[e].recordedAt
    {
      assert e in free;
      forall x | x in picked ensures rows[x].recordedAt <= rows[e].recordedAt {
        assert x in free && key(x) <= key(e);
      }
      if |picked| == |free| {
        DistinctCardinality(picked);
        SubsetOfSameSize(Elements(picked), free);
        assert false;
      }
    }
  }

  /** The database file: two tables and the wall clock every statement reads. */
  class Database {
    var rows: Table
    var log: seq<LogRow>
    var clock: real

    constructor ()
      ensures rows == map[] && log == [] && clock == 0.0
    {
      rows, log, clock := map[], [], 0.0;
    }

    /** Time passes by any nonnegative amount between two statements. */
    method Wait()
      modifies this`clock
      ensures clock >= old(clock)
    {
      var dt: real := *;
      if dt > 0.0 {
        clock := clock + dt;
      }
    }

    method InsertEvents(batch: seq<NewEvent>) returns (ok: bool)
      modifies this`rows
      ensures ok <==>
                && (forall n :: n in batch ==> n.id !in old(rows))
                && (forall i, j :: 0 <= i < j < |batch| ==> batch[i].id != batch[j].id)
      ensures !ok ==> rows == old(rows)
      ensures ok ==>
                && rows.Keys == old(rows).Keys + (set n | n in batch :: n.id)
                && (forall e :: e in old(rows) ==> rows[e] == old(rows)[e])
                && (forall n :: n in batch ==>
                      && rows[n.id].channel == n.channel && rows[n.id].recordedAt == n.recordedAt
                      && !rows[n.id].processed && rows[n.id].attempts == 0 && rows[n.id].lastError.None?
                      && rows[n.id].claimedBy.None? && rows[n.id].leaseExpires.None?)
      ensures ok <==> Insertable(old(rows), batch)
      ensures rows == if ok then AfterInsert(old(rows), batch) else old(rows)
    {
      InsertableExactly(rows, batch);
      var before := rows;
      for i := 0 to |batch|
        invariant Insertable(before, batch[..i])
        invariant rows == AfterInsert(before, batch[..i])
      {
        assert batch[..i + 1][..i] == batch[..i];
        if batch[i].id in rows {
          if Insertable(before, batch) {
            InsertablePrefix(before, batch, i + 1);
          }
          rows := before;
          return false;
        }
        rows := rows[batch[i].id := FreshRow(batch[i])];
      }
      assert batch[..|batch|] == batch;
      BatchAdded(before, batch, rows);
      return true;
    }

    /** Takes the oldest of the channel's rows that are unprocessed and either nobody's or past their lease,
        in order, as many as the limit allows, and writes owner and lease into these rows alone. */
    method ClaimEvents(channel: string, w: WorkerId, limit: int, leaseSeconds: real) returns (picked: seq<EventId>)
      modifies this`rows
      ensures forall i, j :: 0 <= i < j < |picked| ==> picked[i] != picked[j]
      ensures forall e :: e in picked ==> e in old(rows) && Takeable(old(rows)[e], channel, clock.Floor)
      ensures forall i, j :: 0 <= i < j < |picked| ==>
                old(rows)[picked[i]].recordedAt <= old(rows)[picked[j]].recordedAt
      ensures 0 <= limit ==> |picked| <= limit
      ensures forall e :: e in old(rows) && Takeable(old(rows)[e], channel, clock.Floor) && e !in picked ==>
                |picked| == limit && forall x :: x in picked ==> old(rows)[x].recordedAt <= old(rows)[e].recordedAt
      ensures rows.Keys == old(rows).Keys
      ensures forall e :: e in rows && e !in picked ==> rows[e] == old(rows)[e]
      ensures forall e :: e in picked ==>
                && rows[e].claimedBy == Some(w) && rows[e].leaseExpires == Some((clock + leaseSeconds).Floor)
                && rows[e].channel == old(rows)[e].channel && rows[e].recordedAt == old(rows)[e].recordedAt
                && !rows[e].processed
                && rows[e].attempts == old(rows)[e].attempts && rows[e].lastError == old(rows)[e].lastError
      ensures OldestFirst(FreeIds(old(rows), channel, clock), RecordedAt(old(rows)), limit, picked)
      ensures rows == AfterClaim(old(rows), picked, w, Stamp(clock + leaseSeconds))
    {
      picked := SelectOldest(FreeIds(rows, channel, clock), RecordedAt(rows), limit);
      ClaimTakesOldest(rows, channel, clock, limit, picked);
      rows := AfterClaim(rows, picked, w, Stamp(clock + leaseSeconds));
    }

    /** The row is processed and unclaimed afterwards, whoever had claimed it; an id that is not in the
        table updates nothing. */
    method AckEvent(e: EventId)
      modifies this`rows
      ensures rows.Keys == old(rows).Keys && forall x :: x in rows && x != e ==> rows[x] == old(rows)[x]
      ensures e in rows ==>
                && rows[e].processed && rows[e].claimedBy.None? && rows[e].leaseExpires.None?
                && rows[e].channel == old(rows)[e].channel && rows[e].recordedAt == old(rows)[e].recordedAt
                && rows[e].attempts == old(rows)[e].attempts && rows[e].lastError == old(rows)[e].lastError
      ensures rows == AfterAck(old(rows), e)
    {
      if e in rows {
        rows := rows[e := rows[e].(processed := true, claimedBy := None, leaseExpires := None)];
      }
    }

    /** The row is unclaimed afterwards, whoever had claimed it, with one attempt more and the error; it
        is processed only if it was. */
    method FailEvent(e: EventId, error: string)
      modifies this`rows
      ensures rows.Keys == old(rows).Keys && forall x :: x in rows && x != e ==> rows[x] == old(rows)[x]
      ensures e in rows ==>
                && rows[e].attempts == old(rows)[e].attempts + 1 && rows[e].lastError == Some(error)
                && rows[e].claimedBy.None? && rows[e].leaseExpires.None?
                && rows[e].channel == old(rows)[e].channel && rows[e].recordedAt == old(rows)[e].recordedAt
                && rows[e].processed == old(rows)[e].processed
      ensures rows == AfterFail(old(rows), e, error)
    {
      if e in rows {
        var attempts := rows[e].attempts + 1;
        rows := rows[
          e := rows[e].(attempts := attempts, lastError := Some(error), claimedBy := None, leaseExpires := None)];
      }
    }

    method InsertWorkerLog(entry: LogRow)
      modifies this`log
      ensures log == old(log) + [entry]
    {
      log := log + [entry];
    }
  }
}
