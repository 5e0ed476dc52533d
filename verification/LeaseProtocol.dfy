/** Many workers over one event table: the steps they take, and what every run keeps.
    The clock only moves forward; a worker may crash between any two transactions. */
module LeaseProtocol {
  import opened Collections
  import opened Options
  import opened OrderedSelect
  import opened EventStore

  /** What a claim leaves in the worker's memory for one event: when it was made and for how long. */
  datatype Lease = Lease(event: EventId, claimedAt: real, term: real) {
    /** What the claim wrote into the row. */
    function Expires(): int {
      Stamp(claimedAt + term)
    }
  }

  /** A worker inside `run_once`: the claimed events still to process, oldest first, and the
      failure it has recorded in the row but not yet in the log. */
  datatype Worker = Worker(inHand: seq<Lease>, unlogged: Option<LogRow>)

  datatype Sys = Sys(now: real, rows: Table, log: seq<LogRow>, workers: map<WorkerId, Worker>)

  datatype Step =
    | Insert(batch: seq<NewEvent>)
    | Tick(dt: real)
    | Claim(w: WorkerId, channel: string, limit: int, leaseSeconds: real, picked: seq<EventId>)
    | Ack(w: WorkerId)
    | Fail(w: WorkerId, error: string)
    | WriteLog(w: WorkerId)
    | Crash(w: WorkerId)

  const IDLE := Worker([], None)

  function Get(s: Sys, w: WorkerId): Worker {
    if w in s.workers then s.workers[w] else IDLE
  }

  function LeasesFor(picked: seq<EventId>, now: real, term: real): seq<Lease> {
    seq(|picked|, i requires 0 <= i < |picked| => Lease(picked[i], now, term))
  }

  predicate Busy(s: Sys, w: WorkerId) {
    Get(s, w).inHand != [] && Get(s, w).unlogged.None?
  }

  /** The event a busy worker is processing. */
  function Current(s: Sys, w: WorkerId): EventId
    requires Busy(s, w)
  {
    Get(s, w).inHand[0].event
  }

  ghost predicate Enabled(s: Sys, step: Step) {
    match step
    case Insert(batch) => Insertable(s.rows, batch)
    case Tick(dt) => dt >= 0.0
    case Claim(w, channel, limit, _, picked) =>
      && Get(s, w) == IDLE
      && OldestFirst(FreeIds(s.rows, channel, s.now), RecordedAt(s.rows), limit, picked)
    case Ack(w) => Busy(s, w)
    case Fail(w, _) => Busy(s, w)
    case WriteLog(w) => Get(s, w).unlogged.Some?
    case Crash(w) => true
  }

  function Apply(s: Sys, step: Step): Sys
    requires Enabled(s, step)
  {
    match step
    case Insert(batch) => s.(rows := AfterInsert(s.rows, batch))
    case Tick(dt) => s.(now := s.now + dt)
    case Claim(w, _, _, leaseSeconds, picked) =>
      s.(rows := AfterClaim(s.rows, picked, w, Stamp(s.now + leaseSeconds)),
         workers := s.workers[w := Worker(LeasesFor(picked, s.now, leaseSeconds), None)])
    case Ack(w) =>
      s.(rows := AfterAck(s.rows, Current(s, w)),
         workers := s.workers[w := Worker(Get(s, w).inHand[1..], None)])
    case Fail(w, error) =>
      var e := Current(s, w);
      s.(rows := AfterFail(s.rows, e, error),
         workers := s.workers[w := Worker(Get(s, w).inHand[1..], Some(LogRow(w, e, error)))])
    case WriteLog(w) =>
      s.(log := s.log + [Get(s, w).unlogged.value],
         workers := s.workers[w := Get(s, w).(unlogged := None)])
    case Crash(w) => s.(workers := s.workers[w := IDLE])
  }

  ghost predicate Run(s: Sys, steps: seq<Step>)
    decreases steps
  {
    steps == [] || (Enabled(s, steps[0]) && Run(Apply(s, steps[0]), steps[1..]))
  }

  function Final(s: Sys, steps: seq<Step>): Sys
    requires Run(s, steps)
    decreases steps
  {
    if steps == [] then s else Final(Apply(s, steps[0]), steps[1..])
  }

  /** A fresh process group over a table in any state: nothing in hand, leases and owners set together. */
  ghost predicate Init(s: Sys) {
    && (forall w :: Get(s, w) == IDLE)
    && LeasesRecorded(s)
  }

  /** A crash loses what the worker had in memory and nothing else: its claims stay in the table until
      they run out, and it can claim again at once. */
  lemma CrashForgets(s: Sys, w: WorkerId)
    ensures var s' := Apply(s, Crash(w));
            && s'.now == s.now && s'.rows == s.rows && s'.log == s.log
            && Get(s', w).inHand == [] && Get(s', w).unlogged.None?
            && forall v :: v != w ==> Get(s', v) == Get(s, v)
  {
  }

  /** Time moves the clock alone. */
  lemma TimeTouchesNoRow(s: Sys, dt: real)
    requires dt >= 0.0
    ensures Enabled(s, Tick(dt))
    ensures var s' := Apply(s, Tick(dt));
            s'.now == s.now + dt && s'.rows == s.rows && s'.log == s.log && s'.workers == s.workers
  {
  }

  // ---------- exclusivity ----------

  predicate Live(l: Lease, now: real) {
    Stamp(now) <= l.Expires()
  }

  ghost predicate HoldsLive(s: Sys, w: WorkerId, e: EventId) {
    exists l :: l in Get(s, w).inHand && l.event == e && Live(l, s.now)
  }

  /** No event is held under a live lease by two workers. */
  ghost predicate Exclusive(s: Sys) {
    forall e, v, w :: HoldsLive(s, v, e) && HoldsLive(s, w, e) ==> v == w
  }

  predicate Records(r: Row, w: WorkerId, l: Lease) {
    !r.processed && r.claimedBy == Some(w) && r.leaseExpires == Some(l.Expires())
  }

  /** Every live lease in a worker's memory is the one its row records. */
  ghost predicate Recorded(s: Sys) {
    forall w, l :: l in Get(s, w).inHand && Live(l, s.now) ==> l.event in s.rows && Records(s.rows[l.event], w, l)
  }

  /** The same, except that somebody else may already have marked the event processed. */
  ghost predicate RecordedOrDone(s: Sys) {
    forall w, l :: l in Get(s, w).inHand && Live(l, s.now) ==>
      l.event in s.rows && (s.rows[l.event].processed || Records(s.rows[l.event], w, l))
  }

  /** A worker never holds one event twice. */
  ghost predicate NoDuplicates(s: Sys) {
    forall w, i, j :: 0 <= i < j < |Get(s, w).inHand| ==> Get(s, w).inHand[i].event != Get(s, w).inHand[j].event
  }

  ghost predicate Held(s: Sys) {
    NoDuplicates(s) && Recorded(s) && Exclusive(s)
  }

  ghost predicate HeldOrDone(s: Sys) {
    NoDuplicates(s) && RecordedOrDone(s) && Exclusive(s)
  }

  /** Nobody else holds, under a live lease, the event that `w` is processing. */
  ghost predicate Unrivalled(s: Sys, w: WorkerId)
    requires Busy(s, w)
  {
    forall v :: v != w ==> !HoldsLive(s, v, Current(s, w))
  }

  /** Two tests a worker can make before it acks or fails: its own lease is still live, or the row
      still carries its name. Neither is in the code's UPDATE, which filters by event id only. */
  predicate OwnLeaseLive(s: Sys, w: WorkerId)
    requires Busy(s, w)
  {
    Live(Get(s, w).inHand[0], s.now)
  }

  predicate RowNames(s: Sys, w: WorkerId)
    requires Busy(s, w)
  {
    Current(s, w) in s.rows && s.rows[Current(s, w)].claimedBy == Some(w)
  }

  ghost predicate Disciplined(s: Sys, step: Step)
    requires Enabled(s, step)
  {
    match step
    case Ack(w) => OwnLeaseLive(s, w) || RowNames(s, w)
    case Fail(w, _) => OwnLeaseLive(s, w) || RowNames(s, w)
    case _ => true
  }

  ghost predicate FailsDisciplined(s: Sys, step: Step)
    requires Enabled(s, step)
  {
    step.Fail? ==> Disciplined(s, step)
  }

  /** Each of the two tests rules a rival out. */
  lemma DisciplineMeansUnrivalled(s: Sys, w: WorkerId)
    requires Recorded(s) && Exclusive(s) && Busy(s, w)
    requires OwnLeaseLive(s, w) || RowNames(s, w)
    ensures Unrivalled(s, w)
  {
    var e := Current(s, w);
    if OwnLeaseLive(s, w) {
      assert Get(s, w).inHand[0] in Get(s, w).inHand;
      assert HoldsLive(s, w, e);
    }
  }

  /** A live lease a worker holds after a step, it held live before, unless the step claimed it. */
  lemma LiveBefore(s: Sys, step: Step, v: WorkerId, l: Lease)
    requires Enabled(s, step)
    requires l in Get(Apply(s, step), v).inHand && Live(l, Apply(s, step).now)
    requires !(step.Claim? && step.w == v)
    ensures l in Get(s, v).inHand && Live(l, s.now)
  {
    if step.Tick? {
      assert Stamp(s.now) <= Stamp(s.now + step.dt);
    }
  }

  /** A claim takes free rows only, so nobody holds a live lease on what it takes. */
  lemma ClaimTakesUnheld(s: Sys, step: Step, v: WorkerId, e: EventId)
    requires Enabled(s, step) && step.Claim? && e in step.picked
    requires RecordedOrDone(s)
    ensures e in s.rows && !s.rows[e].processed && !HoldsLive(s, v, e)
  {
  }

  lemma NoDuplicatesKept(s: Sys, step: Step)
    requires Enabled(s, step) && NoDuplicates(s)
    ensures NoDuplicates(Apply(s, step))
  {
    var s' := Apply(s, step);
    forall w, i, j | 0 <= i < j < |Get(s', w).inHand|
      ensures Get(s', w).inHand[i].event != Get(s', w).inHand[j].event
    {
      var hand := Get(s', w).inHand;
      if step.Claim? && step.w == w {
        assert hand[i].event == step.picked[i] && hand[j].event == step.picked[j];
      } else if (step.Ack? || step.Fail?) && step.w == w {
        assert hand[i] == Get(s, w).inHand[i + 1] && hand[j] == Get(s, w).inHand[j + 1];
      } else {
        assert hand == Get(s, w).inHand || hand == [];
      }
    }
  }

  lemma ExclusiveKept(s: Sys, step: Step)
    requires Enabled(s, step) && HeldOrDone(s)
    ensures Exclusive(Apply(s, step))
  {
    var s' := Apply(s, step);
    forall e, v, w | HoldsLive(s', v, e) && HoldsLive(s', w, e)
      ensures v == w
    {
      if v != w {
        if step.Claim? && (step.w == v || step.w == w) {
          var other := if step.w == v then w else v;
          var l :| l in Get(s', other).inHand && l.event == e && Live(l, s'.now);
          LiveBefore(s, step, other, l);
          assert HoldsLive(s, other, e);
          ClaimTakesUnheld(s, step, other, e);
          assert false;
        } else {
          var l :| l in Get(s', v).inHand && l.event == e && Live(l, s'.now);
          LiveBefore(s, step, v, l);
          var m :| m in Get(s', w).inHand && m.event == e && Live(m, s'.now);
          LiveBefore(s, step, w, m);
          assert HoldsLive(s, v, e) && HoldsLive(s, w, e);
        }
      }
    }
  }

  /** The event a worker acks or fails is not among those it still has in hand. */
  lemma CurrentIsDropped(s: Sys, w: WorkerId, l: Lease)
    requires NoDuplicates(s) && Busy(s, w) && l in Get(s, w).inHand[1..]
    ensures l in Get(s, w).inHand && l.event != Current(s, w)
  {
    var i :| 0 <= i < |Get(s, w).inHand[1..]| && Get(s, w).inHand[1..][i] == l;
    assert Get(s, w).inHand[i + 1] == l;
  }

  /** The record behind a live lease survives every step except an ack or a fail of that very event
      by somebody else. */
  lemma RecordKept(s: Sys, step: Step, v: WorkerId, l: Lease)
    requires Enabled(s, step) && NoDuplicates(s)
    requires l in Get(Apply(s, step), v).inHand && Live(l, Apply(s, step).now)
    requires !(step.Claim? && step.w == v)
    requires l.event in s.rows && Records(s.rows[l.event], v, l)
    requires (step.Ack? || step.Fail?) && step.w != v ==> Current(s, step.w) != l.event
    ensures l.event in Apply(s, step).rows && Records(Apply(s, step).rows[l.event], v, l)
  {
    LiveBefore(s, step, v, l);
    match step
    case Insert(batch) => InsertAdds(s.rows, batch);
    case Ack(w) => if w == v { CurrentIsDropped(s, w, l); }
    case Fail(w, _) => if w == v { CurrentIsDropped(s, w, l); }
    case _ =>
  }

  lemma ClaimRecords(s: Sys, step: Step, l: Lease)
    requires Enabled(s, step) && step.Claim?
    requires l in Get(Apply(s, step), step.w).inHand
    ensures l.event in step.picked && l.event in Apply(s, step).rows
    ensures Records(Apply(s, step).rows[l.event], step.w, l)
  {
  }

  /** One step of a disciplined protocol keeps every live lease exclusive and recorded. */
  lemma HeldKept(s: Sys, step: Step)
    requires Enabled(s, step) && Held(s)
    requires (step.Ack? || step.Fail?) ==> Unrivalled(s, step.w)
    ensures Held(Apply(s, step))
  {
    var s' := Apply(s, step);
    NoDuplicatesKept(s, step);
    ExclusiveKept(s, step);
    forall v, l | l in Get(s', v).inHand && Live(l, s'.now)
      ensures l.event in s'.rows && Records(s'.rows[l.event], v, l)
    {
      if step.Claim? && step.w == v {
        ClaimRecords(s, step, l);
      } else {
        LiveBefore(s, step, v, l);
        assert HoldsLive(s, v, l.event);
        RecordKept(s, step, v, l);
      }
    }
  }

  ghost predicate DisciplinedRun(s: Sys, steps: seq<Step>)
    requires Run(s, steps)
    decreases steps
  {
    steps == [] || (Disciplined(s, steps[0]) && DisciplinedRun(Apply(s, steps[0]), steps[1..]))
  }

  ghost predicate FailsDisciplinedRun(s: Sys, steps: seq<Step>)
    requires Run(s, steps)
    decreases steps
  {
    steps == [] || (FailsDisciplined(s, steps[0]) && FailsDisciplinedRun(Apply(s, steps[0]), steps[1..]))
  }

  lemma InitHeld(s: Sys)
    requires Init(s)
    ensures Held(s)
  {
  }

  lemma {:induction false} HeldThroughout(s: Sys, steps: seq<Step>)
    requires Run(s, steps) && Held(s) && DisciplinedRun(s, steps)
    ensures Held(Final(s, steps))
    decreases steps
  {
    if steps != [] {
      var step := steps[0];
      if step.Ack? || step.Fail? {
        DisciplineMeansUnrivalled(s, step.w);
      }
      HeldKept(s, step);
      HeldThroughout(Apply(s, step), steps[1..]);
    }
  }

  /** Safety over whole runs, any number of workers, crashes included: if every ack and fail is made
      on a live lease or while the row still names its worker, then no event is ever held live by two
      workers, and each live holder is the one its row records. */
  lemma ExclusiveLeases(s: Sys, steps: seq<Step>)
    requires Init(s) && Run(s, steps) && DisciplinedRun(s, steps)
    ensures Exclusive(Final(s, steps)) && Recorded(Final(s, steps))
  {
    InitHeld(s);
    HeldThroughout(s, steps);
  }

  /** A fail frees the row under a live holder: nothing but a late fail can. */
  ghost predicate Frees(s: Sys, step: Step)
    requires Enabled(s, step)
  {
    && step.Fail? && !Unrivalled(s, step.w)
    && Current(s, step.w) in s.rows && !s.rows[Current(s, step.w)].processed
  }

  lemma HeldOrDoneKept(s: Sys, step: Step)
    requires Enabled(s, step) && HeldOrDone(s) && !Frees(s, step)
    ensures HeldOrDone(Apply(s, step))
  {
    var s' := Apply(s, step);
    NoDuplicatesKept(s, step);
    ExclusiveKept(s, step);
    forall v, l | l in Get(s', v).inHand && Live(l, s'.now)
      ensures l.event in s'.rows && (s'.rows[l.event].processed || Records(s'.rows[l.event], v, l))
    {
      if step.Claim? && step.w == v {
        ClaimRecords(s, step, l);
      } else {
        LiveBefore(s, step, v, l);
        assert HoldsLive(s, v, l.event);
        if s.rows[l.event].processed {
          ProcessedKept(s, step, l.event);
        } else if step.Ack? && Current(s, step.w) == l.event {
        } else {
          RecordKept(s, step, v, l);
        }
      }
    }
  }

  /** A disciplined fail frees nothing under anybody. */
  lemma DisciplinedFreesNothing(s: Sys, step: Step)
    requires Enabled(s, step) && HeldOrDone(s) && FailsDisciplined(s, step)
    ensures !Frees(s, step)
  {
    if step.Fail? && OwnLeaseLive(s, step.w) {
      assert Get(s, step.w).inHand[0] in Get(s, step.w).inHand;
      assert HoldsLive(s, step.w, Current(s, step.w));
    }
  }

  lemma {:induction false} HeldOrDoneThroughout(s: Sys, steps: seq<Step>)
    requires Run(s, steps) && HeldOrDone(s) && FailsDisciplinedRun(s, steps)
    ensures HeldOrDone(Final(s, steps))
    decreases steps
  {
    if steps != [] {
      DisciplinedFreesNothing(s, steps[0]);
      HeldOrDoneKept(s, steps[0]);
      HeldOrDoneThroughout(Apply(s, steps[0]), steps[1..]);
    }
  }

  /** Late acks alone never let two workers hold one event: only late fails can. */
  lemma LateAcksKeepExclusivity(s: Sys, steps: seq<Step>)
    requires Init(s) && Run(s, steps) && FailsDisciplinedRun(s, steps)
    ensures Exclusive(Final(s, steps)) && RecordedOrDone(Final(s, steps))
  {
    InitHeld(s);
    HeldOrDoneThroughout(s, steps);
  }

  lemma RunFrom(s: Sys, step: Step, rest: seq<Step>)
    requires Enabled(s, step) && Run(Apply(s, step), rest)
    ensures Run(s, [step] + rest) && Final(s, [step] + rest) == Final(Apply(s, step), rest)
  {
    assert ([step] + rest)[1..] == rest;
  }

  lemma {:induction false} RunAppend(s: Sys, steps: seq<Step>, rest: seq<Step>)
    requires Run(s, steps) && Run(Final(s, steps), rest)
    ensures Run(s, steps + rest) && Final(s, steps + rest) == Final(Final(s, steps), rest)
    decreases steps
  {
    if steps == [] {
      assert steps + rest == rest;
    } else {
      RunAppend(Apply(s, steps[0]), steps[1..], rest);
      RunFrom(s, steps[0], steps[1..] + rest);
      assert steps + rest == [steps[0]] + (steps[1..] + rest);
    }
  }

  // ---------- progress of a row, in every run ----------

  /** A step never unsets `processed`, never lowers the attempts, and counts exactly the fails. */
  lemma RowProgress(s: Sys, step: Step, e: EventId)
    requires Enabled(s, step) && e in s.rows
    ensures e in Apply(s, step).rows
    ensures s.rows[e].processed ==> Apply(s, step).rows[e].processed
    ensures Apply(s, step).rows[e].attempts == s.rows[e].attempts + (if IsFailOf(s, step, e) then 1 else 0)
    ensures s.rows[e].processed && step.Claim? ==> e !in step.picked
  {
    if step.Insert? {
      InsertAdds(s.rows, step.batch);
    }
  }

  predicate IsFailOf(s: Sys, step: Step, e: EventId) {
    step.Fail? && Busy(s, step.w) && Current(s, step.w) == e
  }

  lemma ProcessedKept(s: Sys, step: Step, e: EventId)
    requires Enabled(s, step) && e in s.rows && s.rows[e].processed
    ensures e in Apply(s, step).rows && Apply(s, step).rows[e].processed
  {
    RowProgress(s, step, e);
  }

  ghost function FailCount(s: Sys, steps: seq<Step>, e: EventId): nat
    requires Run(s, steps)
    decreases steps
  {
    if steps == [] then 0
    else (if IsFailOf(s, steps[0], e) then 1 else 0) + FailCount(Apply(s, steps[0]), steps[1..], e)
  }

  /** In every run, however late the acks and fails: a processed event stays processed and is never
      claimed again, and `attempt_count` grows by exactly the number of fails of that event. */
  lemma {:induction false} ProcessedForever(s: Sys, steps: seq<Step>, e: EventId)
    requires Run(s, steps) && e in s.rows
    ensures e in Final(s, steps).rows
    ensures Final(s, steps).rows[e].attempts == s.rows[e].attempts + FailCount(s, steps, e)
    ensures s.rows[e].processed ==> Final(s, steps).rows[e].processed
    ensures s.rows[e].processed ==> forall i :: 0 <= i < |steps| && steps[i].Claim? ==> e !in steps[i].picked
    decreases steps
  {
    if steps != [] {
      RowProgress(s, steps[0], e);
      ProcessedForever(Apply(s, steps[0]), steps[1..], e);
      forall i | 0 <= i < |steps| && steps[i].Claim? && s.rows[e].processed
        ensures e !in steps[i].picked
      {
        if i > 0 {
          assert steps[i] == steps[1..][i - 1];
        }
      }
    }
  }

  // ---------- the failure log ----------

  ghost function LogCount(log: seq<LogRow>, e: EventId): nat {
    if log == [] then 0
    else LogCount(log[..|log| - 1], e) + (if log[|log| - 1].event == e then 1 else 0)
  }

  /** The workers that have failed the event but not yet written its log row. */
  ghost function Unlogged(s: Sys, e: EventId): set<WorkerId> {
    set w | w in s.workers && s.workers[w].unlogged.Some? && s.workers[w].unlogged.value.event == e
  }

  /** Every log row stands for its own fail: log rows, written or still to be written, never outnumber
      the attempts. */
  ghost predicate LogsBacked(s: Sys) {
    && (forall e :: e in s.rows ==> LogCount(s.log, e) + |Unlogged(s, e)| <= s.rows[e].attempts)
    && (forall e :: e !in s.rows ==> LogCount(s.log, e) == 0 && Unlogged(s, e) == {})
    && (forall w, l :: l in Get(s, w).inHand ==> l.event in s.rows)
  }

  lemma UnloggedAfter(s: Sys, step: Step, e: EventId)
    requires Enabled(s, step)
    ensures var u, u' := Unlogged(s, e), Unlogged(Apply(s, step), e);
            if IsFailOf(s, step, e) then step.w !in u && u' == u + {step.w}
            else if step.WriteLog? && Get(s, step.w).unlogged.value.event == e then step.w in u && u' == u - {step.w}
            else u' <= u
  {
  }

  lemma LogsBackedKept(s: Sys, step: Step)
    requires Enabled(s, step) && LogsBacked(s)
    ensures LogsBacked(Apply(s, step))
  {
    var s' := Apply(s, step);
    if step.Insert? {
      InsertAdds(s.rows, step.batch);
    }
    forall e | e in s'.rows
      ensures LogCount(s'.log, e) + |Unlogged(s', e)| <= s'.rows[e].attempts
    {
      UnloggedAfter(s, step, e);
      LogAfter(s, step, e);
      SubsetIsSmaller(Unlogged(s', e), Unlogged(s, e));
      if e in s.rows {
        RowProgress(s, step, e);
      }
    }
    forall e | e !in s'.rows
      ensures LogCount(s'.log, e) == 0 && Unlogged(s', e) == {}
    {
      UnloggedAfter(s, step, e);
      LogAfter(s, step, e);
    }
    forall w, l | l in Get(s', w).inHand
      ensures l.event in s'.rows
    {
      if step.Claim? && step.w == w {
        ClaimRecords(s, step, l);
      } else {
        assert l in Get(s, w).inHand;
      }
    }
  }

  lemma LogAfter(s: Sys, step: Step, e: EventId)
    requires Enabled(s, step)
    ensures LogCount(Apply(s, step).log, e)
         == LogCount(s.log, e) + (if step.WriteLog? && Get(s, step.w).unlogged.value.event == e then 1 else 0)
  {
    if step.WriteLog? {
      var log' := Apply(s, step).log;
      assert log'[..|log'| - 1] == s.log;
    }
  }

  /** In every run, crashes between the two writes included, an event has at most as many log rows as
      its `attempt_count`. */
  lemma {:induction false} LogsNeverOutnumberAttempts(s: Sys, steps: seq<Step>)
    requires Run(s, steps) && LogsBacked(s)
    ensures LogsBacked(Final(s, steps))
    decreases steps
  {
    if steps != [] {
      LogsBackedKept(s, steps[0]);
      LogsNeverOutnumberAttempts(Apply(s, steps[0]), steps[1..]);
    }
  }

  // ---------- nothing is stranded ----------

  /** A row has an owner exactly when it has a lease. */
  ghost predicate LeasesRecorded(s: Sys) {
    forall e :: e in s.rows ==> (s.rows[e].claimedBy.Some? <==> s.rows[e].leaseExpires.Some?)
  }

  lemma {:induction false} LeasesRecordedThroughout(s: Sys, steps: seq<Step>)
    requires Run(s, steps) && LeasesRecorded(s)
    ensures LeasesRecorded(Final(s, steps))
    decreases steps
  {
    if steps != [] {
      if steps[0].Insert? {
        InsertAdds(s.rows, steps[0].batch);
      }
      LeasesRecordedThroughout(Apply(s, steps[0]), steps[1..]);
    }
  }

  /** The claimable rows of the event's channel that are no younger than it, itself included. */
  ghost function Ahead(rows: Table, e: EventId, now: real): set<EventId>
    requires e in rows
  {
    set x | x in FreeIds(rows, rows[e].channel, now) && rows[x].recordedAt <= rows[e].recordedAt
  }

  /** A claim that leaves a claimable event behind took only rows that were ahead of it, as many as its
      limit. */
  lemma LeftBehind(rows: Table, e: EventId, now: real, limit: int, picked: seq<EventId>)
    requires e in rows && Free(rows[e], rows[e].channel, now) && e !in picked
    requires OldestFirst(FreeIds(rows, rows[e].channel, now), RecordedAt(rows), limit, picked)
    ensures Elements(picked) <= Ahead(rows, e, now) - {e}
    ensures 0 <= limit == |Elements(picked)|
  {
    var free := FreeIds(rows, rows[e].channel, now);
    DistinctCardinality(picked);
    forall x | x in picked ensures x in Ahead(rows, e, now) {
      assert RecordedAt(rows)(x) <= RecordedAt(rows)(e);
    }
    assert e in free && e !in Elements(picked);
    if |picked| == |free| {
      SubsetOfSameSize(Elements(picked), free);
    }
  }

  /** No crash can strand an event: in every reachable state, once the clock has passed whatever lease an
      unprocessed row carries, a claim on its channel takes it unless its limit is used up on rows no
      younger, however many younger ones wait. */
  lemma NothingStranded(s: Sys, steps: seq<Step>, e: EventId, later: real, limit: int, picked: seq<EventId>)
    requires Init(s) && Run(s, steps)
    requires var rows := Final(s, steps).rows;
             && e in rows && !rows[e].processed
             && (rows[e].leaseExpires.Some? ==> rows[e].leaseExpires.value < Stamp(later))
             && OldestFirst(FreeIds(rows, rows[e].channel, later), RecordedAt(rows), limit, picked)
             && (limit < 0 || |Ahead(rows, e, later)| <= limit)
    ensures e in picked
  {
    LeasesRecordedThroughout(s, steps);
    var rows := Final(s, steps).rows;
    assert e in Ahead(rows, e, later);
    if e !in picked {
      LeftBehind(rows, e, later, limit, picked);
      SubsetIsSmaller(Elements(picked), Ahead(rows, e, later) - {e});
    }
  }
}
