/** `NanobarWorker.run_once` over a database that other workers use at the same time, shown to be the
    worker's part of a run of the lease protocol. */
module Worker {
  import opened Collections
  import opened Options
  import opened OrderedSelect
  import opened EventStore
  import opened LeaseProtocol

  /** Whose step it is; nobody's when time passes or events arrive. */
  predicate ActsFor(step: Step, w: WorkerId) {
    match step
    case Claim(v, _, _, _, _) => v == w
    case Ack(v) => v == w
    case Fail(v, _) => v == w
    case WriteLog(v) => v == w
    case Crash(v) => v == w
    case _ => false
  }

  /** What everybody else does between two of this worker's transactions: any steps at all, depending on
      the moment and on the state of the whole system. */
  type Others = (nat, Sys) -> seq<Step>

  ghost predicate LeavesAlone(others: Others, w: WorkerId) {
    forall n, s :: Run(s, others(n, s)) && NoneFor(others(n, s), w)
  }

  ghost predicate NoneFor(steps: seq<Step>, w: WorkerId) {
    forall step :: step in steps ==> !ActsFor(step, w)
  }

  class NanobarWorker {
    const workerId: WorkerId
    const channels: seq<string>
    const claimLimit: int
    const leaseSeconds: real

    /** The subclass's handler: for an event at a given moment, None when it returns and the message
        when it raises. */
    const process: (EventId, real) -> Option<string>

    constructor (workerId: WorkerId, channels: seq<string>, process: (EventId, real) -> Option<string>,
                 claimLimit: int := 10, leaseSeconds: real := 30.0)
      ensures this.workerId == workerId && this.channels == channels && this.process == process
      ensures this.claimLimit == claimLimit && this.leaseSeconds == leaseSeconds
    {
      this.workerId, this.channels, this.process := workerId, channels, process;
      this.claimLimit, this.leaseSeconds := claimLimit, leaseSeconds;
    }

    /** A step that may occur during a pass: any of somebody else's; of this worker's, an ack only of an
        event the handler returned on, a fail only of one it raised on and with its message, and claims
        as configured. */
    ghost predicate InPass(s: Sys, step: Step)
      requires Enabled(s, step)
    {
      ActsFor(step, workerId) ==>
        match step
        case Ack(w) => process(Current(s, w), s.now) == None
        case Fail(w, error) => process(Current(s, w), s.now) == Some(error)
        case Claim(_, channel, limit, ls, _) => channel in channels && limit == claimLimit && ls == leaseSeconds
        case Crash(_) => false
        case _ => true
    }

    ghost predicate Pass(s: Sys, steps: seq<Step>)
      requires Run(s, steps)
      decreases steps
    {
      steps == [] || (InPass(s, steps[0]) && Pass(Apply(s, steps[0]), steps[1..]))
    }

    /** The channels this worker claims on in a run, in order. */
    ghost function ClaimedChannels(steps: seq<Step>): seq<string> {
      if steps == [] then [] else ClaimedBy(steps[0]) + ClaimedChannels(steps[1..])
    }

    ghost function ClaimedBy(step: Step): seq<string> {
      if step.Claim? && step.w == workerId then [step.channel] else []
    }

    /** The events this worker claims in a run, in order. */
    ghost function ClaimedEvents(steps: seq<Step>): seq<EventId> {
      if steps == [] then [] else EventsOf(steps[0]) + ClaimedEvents(steps[1..])
    }

    ghost function EventsOf(step: Step): seq<EventId> {
      if step.Claim? && step.w == workerId then step.picked else []
    }

    /** The events this worker acks or fails in a run, in order. */
    ghost function SettledEvents(s: Sys, steps: seq<Step>): seq<EventId>
      requires Run(s, steps)
      decreases steps
    {
      if steps == [] then [] else SettledBy(s, steps[0]) + SettledEvents(Apply(s, steps[0]), steps[1..])
    }

    ghost function SettledBy(s: Sys, step: Step): seq<EventId>
      requires Enabled(s, step)
    {
      if (step.Ack? || step.Fail?) && step.w == workerId then [Current(s, step.w)] else []
    }

    /** The system's state `s` is what the database holds, and what each worker has in memory. */
    ghost predicate Mirrors(s: Sys, db: Database)
      reads db
    {
      s.rows == db.rows && s.log == db.log && s.now == db.clock
    }

    /** The rows this worker owns are those it still has in hand or owned before the pass. */
    ghost predicate OwnsOnly(s: Sys, before: Table) {
      forall e :: e in s.rows && s.rows[e].claimedBy == Some(workerId) ==>
        (e in before && before[e].claimedBy == Some(workerId)) || InHand(s, e)
    }

    ghost predicate InHand(s: Sys, e: EventId) {
      exists l :: l in Get(s, workerId).inHand && l.event == e
    }

    // ---------- everybody else ----------

    lemma OthersKeep(s: Sys, step: Step, before: Table)
      requires Enabled(s, step) && !ActsFor(step, workerId) && OwnsOnly(s, before)
      ensures Get(Apply(s, step), workerId) == Get(s, workerId) && OwnsOnly(Apply(s, step), before)
    {
      var s' := Apply(s, step);
      if step.Insert? {
        InsertAdds(s.rows, step.batch);
      }
      forall e | e in s'.rows && s'.rows[e].claimedBy == Some(workerId)
        ensures e in s.rows && s.rows[e].claimedBy == Some(workerId) && (InHand(s, e) ==> InHand(s', e))
      {
      }
    }

    lemma {:induction false} OthersAreInPass(s: Sys, steps: seq<Step>, before: Table)
      requires Run(s, steps) && NoneFor(steps, workerId) && OwnsOnly(s, before)
      ensures Pass(s, steps) && ClaimedChannels(steps) == [] && ClaimedEvents(steps) == []
              && SettledEvents(s, steps) == []
      ensures Get(Final(s, steps), workerId) == Get(s, workerId) && OwnsOnly(Final(s, steps), before)
      decreases steps
    {
      if steps != [] {
        assert steps[0] in steps;
        OthersKeep(s, steps[0], before);
        OthersAreInPass(Apply(s, steps[0]), steps[1..], before);
      }
    }

    method OthersAct(db: Database, s: Sys, others: Others, n: nat, ghost before: Table) returns (s': Sys,
                     ghost steps: seq<Step>)
      requires LeavesAlone(others, workerId) && Mirrors(s, db) && OwnsOnly(s, before)
      modifies db
      ensures Run(s, steps) && Pass(s, steps) && Final(s, steps) == s' && Mirrors(s', db)
      ensures ClaimedChannels(steps) == [] && ClaimedEvents(steps) == [] && SettledEvents(s, steps) == []
      ensures Get(s', workerId) == Get(s, workerId) && OwnsOnly(s', before)
    {
      var script := others(n, s);
      assert Run(s, script) && NoneFor(script, workerId);
      OthersAreInPass(s, script, before);
      s' := Final(s, script);
      db.rows, db.log, db.clock := s'.rows, s'.log, s'.now;
      steps := script;
    }

    // ---------- putting runs together ----------

    lemma {:induction false} ClaimedChannelsAppend(a: seq<Step>, b: seq<Step>)
      ensures ClaimedChannels(a + b) == ClaimedChannels(a) + ClaimedChannels(b)
    {
      if a == [] {
        assert a + b == b;
      } else {
        ClaimedChannelsAppend(a[1..], b);
        assert (a + b)[0] == a[0] && (a + b)[1..] == a[1..] + b;
        Associative(ClaimedBy(a[0]), ClaimedChannels(a[1..]), ClaimedChannels(b));
      }
    }

    lemma {:induction false} ClaimedEventsAppend(a: seq<Step>, b: seq<Step>)
      ensures ClaimedEvents(a + b) == ClaimedEvents(a) + ClaimedEvents(b)
    {
      if a == [] {
        assert a + b == b;
      } else {
        ClaimedEventsAppend(a[1..], b);
        assert (a + b)[0] == a[0] && (a + b)[1..] == a[1..] + b;
        Associative(EventsOf(a[0]), ClaimedEvents(a[1..]), ClaimedEvents(b));
      }
    }

    lemma {:induction false} SettledAppend(s: Sys, a: seq<Step>, b: seq<Step>)
      requires Run(s, a) && Run(Final(s, a), b) && Run(s, a + b)
      ensures SettledEvents(s, a + b) == SettledEvents(s, a) + SettledEvents(Final(s, a), b)
      decreases a
    {
      if a == [] {
        assert a + b == b;
      } else {
        assert (a + b)[0] == a[0] && (a + b)[1..] == a[1..] + b;
        SettledAppend(Apply(s, a[0]), a[1..], b);
        Associative(SettledBy(s, a[0]), SettledEvents(Apply(s, a[0]), a[1..]), SettledEvents(Final(s, a), b));
      }
    }

    lemma {:induction false} PassAppend(s: Sys, steps: seq<Step>, more: seq<Step>)
      requires Run(s, steps) && Pass(s, steps) && Run(s, steps + more)
      requires Run(Final(s, steps), more) && Pass(Final(s, steps), more)
      ensures Pass(s, steps + more)
      decreases steps
    {
      if steps == [] {
        assert steps + more == more;
      } else {
        assert (steps + more)[0] == steps[0] && (steps + more)[1..] == steps[1..] + more;
        PassAppend(Apply(s, steps[0]), steps[1..], more);
      }
    }

    lemma ExtendBy(s: Sys, steps: seq<Step>, more: seq<Step>)
      requires Run(s, steps) && Pass(s, steps)
      requires Run(Final(s, steps), more) && Pass(Final(s, steps), more)
      ensures Run(s, steps + more) && Pass(s, steps + more)
      ensures Final(s, steps + more) == Final(Final(s, steps), more)
      ensures ClaimedChannels(steps + more) == ClaimedChannels(steps) + ClaimedChannels(more)
      ensures ClaimedEvents(steps + more) == ClaimedEvents(steps) + ClaimedEvents(more)
      ensures SettledEvents(s, steps + more) == SettledEvents(s, steps) + SettledEvents(Final(s, steps), more)
    {
      ClaimedChannelsAppend(steps, more);
      ClaimedEventsAppend(steps, more);
      RunAppend(s, steps, more);
      PassAppend(s, steps, more);
      SettledAppend(s, steps, more);
    }

    lemma Extend(s: Sys, steps: seq<Step>, step: Step)
      requires Run(s, steps) && Pass(s, steps)
      requires Enabled(Final(s, steps), step) && InPass(Final(s, steps), step)
      ensures Run(s, steps + [step]) && Pass(s, steps + [step])
      ensures Final(s, steps + [step]) == Apply(Final(s, steps), step)
      ensures ClaimedChannels(steps + [step]) == ClaimedChannels(steps) + ClaimedBy(step)
      ensures ClaimedEvents(steps + [step]) == ClaimedEvents(steps) + EventsOf(step)
      ensures SettledEvents(s, steps + [step]) == SettledEvents(s, steps) + SettledBy(Final(s, steps), step)
    {
      OneStep(Final(s, steps), step);
      ExtendBy(s, steps, [step]);
    }

    lemma OneStep(s: Sys, step: Step)
      requires Enabled(s, step) && InPass(s, step)
      ensures Run(s, [step]) && Pass(s, [step]) && Final(s, [step]) == Apply(s, step)
      ensures ClaimedChannels([step]) == ClaimedBy(step) && ClaimedEvents([step]) == EventsOf(step)
      ensures SettledEvents(s, [step]) == SettledBy(s, step)
    {
      var next := Apply(s, step);
      assert [step][1..] == [];
      assert Run(next, []) && Pass(next, []) && SettledEvents(next, []) == [];
      assert ClaimedChannels([step]) == ClaimedBy(step) + ClaimedChannels([]);
      assert ClaimedEvents([step]) == EventsOf(step) + ClaimedEvents([]);
    }

    // ---------- the pass ----------

    /** The step at `at` is the one that the handler, called on the event at that moment, asks for. */
    ghost predicate SettledAsHandled(s: Sys, steps: seq<Step>, at: nat, event: EventId) {
      && at < |steps| && Run(s, steps[..at])
      && match process(event, Final(s, steps[..at]).now)
         case None => steps[at] == Ack(workerId)
         case Some(error) => steps[at] == Fail(workerId, error)
    }

    lemma HandledHere(s: Sys, first: seq<Step>, more: seq<Step>, event: EventId)
      requires Run(s, first) && more != []
      requires match process(event, Final(s, first).now)
               case None => more[0] == Ack(workerId)
               case Some(error) => more[0] == Fail(workerId, error)
      ensures SettledAsHandled(s, first + more, |first|, event)
    {
      assert (first + more)[..|first|] == first && (first + more)[|first|] == more[0];
    }

    /** Processing the first event in hand, whatever has become of its row: the handler either returns,
        and the event is acked, or raises, and the event is failed and then logged. */
    method ProcessOne(db: Database, event: EventId, s: Sys, others: Others, n: nat, ghost before: Table)
      returns (s': Sys, n': nat, ghost steps: seq<Step>, ghost at: nat)
      requires LeavesAlone(others, workerId) && Mirrors(s, db) && OwnsOnly(s, before)
      requires Busy(s, workerId) && Current(s, workerId) == event
      modifies db
      ensures SettledAsHandled(s, steps, at, event)
      ensures Run(s, steps) && Pass(s, steps) && Final(s, steps) == s' && Mirrors(s', db) && OwnsOnly(s', before)
      ensures Get(s', workerId) == Worker(Get(s, workerId).inHand[1..], None)
      ensures ClaimedChannels(steps) == [] && ClaimedEvents(steps) == [] && SettledEvents(s, steps) == [event]
    {
      s', steps := OthersAct(db, s, others, n, before);
      at := |steps|;
      var outcome := process(event, db.clock);
      ghost var more;
      if outcome.Some? {
        s', more := FailAndLog(db, event, outcome.value, s', others, n + 1, before);
        n' := n + 2;
      } else {
        s', more := AckNow(db, event, s', before);
        n' := n + 1;
      }
      HandledHere(s, steps, more, event);
      ExtendBy(s, steps, more);
      steps := steps + more;
    }

    method AckNow(db: Database, event: EventId, s: Sys, ghost before: Table)
      returns (s': Sys, ghost steps: seq<Step>)
      requires Mirrors(s, db) && OwnsOnly(s, before)
      requires Busy(s, workerId) && Current(s, workerId) == event && process(event, s.now) == None
      modifies db
      ensures steps == [Ack(workerId)]
      ensures Run(s, steps) && Pass(s, steps) && Final(s, steps) == s' && Mirrors(s', db) && OwnsOnly(s', before)
      ensures Get(s', workerId) == Worker(Get(s, workerId).inHand[1..], None)
      ensures ClaimedChannels(steps) == [] && ClaimedEvents(steps) == [] && SettledEvents(s, steps) == [event]
    {
      Settled(s, Ack(workerId), before);
      OneStep(s, Ack(workerId));
      db.AckEvent(event);
      s', steps := Apply(s, Ack(workerId)), [Ack(workerId)];
    }

    /** Two transactions: the row first, then the log. */
    method FailAndLog(db: Database, event: EventId, error: string, s: Sys, others: Others, n: nat, ghost before: Table)
      returns (s': Sys, ghost steps: seq<Step>)
      requires LeavesAlone(others, workerId) && Mirrors(s, db) && OwnsOnly(s, before)
      requires Busy(s, workerId) && Current(s, workerId) == event && process(event, s.now) == Some(error)
      modifies db
      ensures steps != [] && steps[0] == Fail(workerId, error)
      ensures Run(s, steps) && Pass(s, steps) && Final(s, steps) == s' && Mirrors(s', db) && OwnsOnly(s', before)
      ensures Get(s', workerId) == Worker(Get(s, workerId).inHand[1..], None)
      ensures ClaimedChannels(steps) == [] && ClaimedEvents(steps) == [] && SettledEvents(s, steps) == [event]
    {
      var fail := Fail(workerId, error);
      Settled(s, fail, before);
      Extend(s, [], fail);
      db.FailEvent(event, error);
      s', steps := Apply(s, fail), [] + [fail];
      ghost var between;
      s', between := OthersAct(db, s', others, n, before);
      ExtendBy(s, steps, between);
      steps := steps + between;
      Extend(s, steps, WriteLog(workerId));
      db.InsertWorkerLog(LogRow(workerId, event, error));
      steps := steps + [WriteLog(workerId)];
      s' := Apply(s', WriteLog(workerId));
    }

    lemma Settled(s: Sys, step: Step, before: Table)
      requires Enabled(s, step) && (step.Ack? || step.Fail?) && step.w == workerId && OwnsOnly(s, before)
      ensures OwnsOnly(Apply(s, step), before)
      ensures Get(Apply(s, step), workerId).inHand == Get(s, workerId).inHand[1..]
    {
      var s' := Apply(s, step);
      var hand := Get(s, workerId).inHand;
      forall e | e in s'.rows && s'.rows[e].claimedBy == Some(workerId)
        ensures (e in before && before[e].claimedBy == Some(workerId)) || InHand(s', e)
      {
        assert s.rows[e].claimedBy == Some(workerId) && e != hand[0].event;
        if !(e in before && before[e].claimedBy == Some(workerId)) {
          var l :| l in hand && l.event == e;
          var i :| 0 <= i < |hand| && hand[i] == l;
          assert hand[1..][i - 1] == l;
        }
      }
    }

    /** One pass over the configured channels, with everybody else acting at will between any two
        transactions: each channel is claimed once, in order; everything claimed is settled, once and
        in order, as its handler decided; and no claim of this pass is left behind. */
    method RunOnce(db: Database, s: Sys, others: Others) returns (s': Sys, ghost steps: seq<Step>)
      requires LeavesAlone(others, workerId) && Mirrors(s, db) && Get(s, workerId) == IDLE
      modifies db
      ensures Run(s, steps) && Pass(s, steps) && Final(s, steps) == s' && Mirrors(s', db)
      ensures Get(s', workerId) == IDLE
      ensures ClaimedChannels(steps) == channels && SettledEvents(s, steps) == ClaimedEvents(steps)
      ensures forall e :: e in db.rows && db.rows[e].claimedBy == Some(workerId) ==>
                e in old(db.rows) && old(db.rows)[e].claimedBy == Some(workerId)
    {
      ghost var before := db.rows;
      var n := 0;
      s', steps := s, [];
      for i := 0 to |channels|
        invariant Run(s, steps) && Pass(s, steps) && Final(s, steps) == s'
        invariant Mirrors(s', db) && Get(s', workerId) == IDLE && OwnsOnly(s', before)
        invariant ClaimedChannels(steps) == channels[..i] && SettledEvents(s, steps) == ClaimedEvents(steps)
      {
        ghost var more;
        s', n, more := RunChannel(db, channels[i], s', others, n, before);
        ExtendBy(s, steps, more);
        steps := steps + more;
        PrefixStep([], channels, i);
      }
      assert channels[..|channels|] == channels;
      IdleOwnsNothingNew(s', before);
    }

    lemma IdleOwnsNothingNew(s: Sys, before: Table)
      requires OwnsOnly(s, before) && Get(s, workerId) == IDLE
      ensures forall e :: e in s.rows && s.rows[e].claimedBy == Some(workerId) ==>
              e in before && before[e].claimedBy == Some(workerId)
    {
    }

    /** One channel: claim, then process what was claimed, in order. */
    method RunChannel(db: Database, channel: string, s: Sys, others: Others, n: nat, ghost before: Table)
      returns (s': Sys, n': nat, ghost steps: seq<Step>)
      requires LeavesAlone(others, workerId) && Mirrors(s, db) && OwnsOnly(s, before)
      requires Get(s, workerId) == IDLE && channel in channels
      modifies db
      ensures Run(s, steps) && Pass(s, steps) && Final(s, steps) == s' && Mirrors(s', db) && OwnsOnly(s', before)
      ensures Get(s', workerId) == IDLE
      ensures ClaimedChannels(steps) == [channel] && SettledEvents(s, steps) == ClaimedEvents(steps)
    {
      var picked;
      s', picked, steps := ClaimChannel(db, channel, s, others, n, before);
      ghost var more;
      s', n', more := ProcessAll(db, picked, s', others, n + 1, before);
      ExtendBy(s, steps, more);
      steps := steps + more;
    }

    method ClaimChannel(db: Database, channel: string, s: Sys, others: Others, n: nat, ghost before: Table)
      returns (s': Sys, picked: seq<EventId>, ghost steps: seq<Step>)
      requires LeavesAlone(others, workerId) && Mirrors(s, db) && OwnsOnly(s, before)
      requires Get(s, workerId) == IDLE && channel in channels
      modifies db
      ensures Run(s, steps) && Pass(s, steps) && Final(s, steps) == s' && Mirrors(s', db) && OwnsOnly(s', before)
      ensures Get(s', workerId).unlogged.None? && Events(Get(s', workerId).inHand) == picked
      ensures ClaimedChannels(steps) == [channel] && ClaimedEvents(steps) == picked && SettledEvents(s, steps) == []
    {
      s', steps := OthersAct(db, s, others, n, before);
      var claim;
      picked, claim := ClaimNow(db, channel, s', before);
      Extend(s, steps, claim);
      steps := steps + [claim];
      s' := Apply(s', claim);
    }

    method ClaimNow(db: Database, channel: string, s: Sys, ghost before: Table) returns (picked: seq<EventId>,
                    claim: Step)
      requires Mirrors(s, db) && OwnsOnly(s, before) && Get(s, workerId) == IDLE && channel in channels
      modifies db`rows
      ensures claim == Claim(workerId, channel, claimLimit, leaseSeconds, picked)
      ensures Enabled(s, claim) && InPass(s, claim) && OwnsOnly(Apply(s, claim), before) && Mirrors(Apply(s, claim), db)
      ensures Get(Apply(s, claim), workerId).unlogged.None? && Events(Get(Apply(s, claim), workerId).inHand) == picked
    {
      ghost var rows := db.rows;
      assert rows == s.rows && db.clock == s.now;
      picked := db.ClaimEvents(channel, workerId, claimLimit, leaseSeconds);
      claim := Claim(workerId, channel, claimLimit, leaseSeconds, picked);
      ClaimedHand(s, claim, before, db.clock, rows, db.rows);
    }

    lemma ClaimedHand(s: Sys, claim: Step, before: Table, clock: real, rows: Table, after: Table)
      requires claim.Claim? && claim.w == workerId && Get(s, workerId) == IDLE && OwnsOnly(s, before)
      requires clock == s.now && rows == s.rows
      requires OldestFirst(FreeIds(rows, claim.channel, clock), RecordedAt(rows), claim.limit, claim.picked)
      requires after == AfterClaim(rows, claim.picked, workerId, Stamp(clock + claim.leaseSeconds))
      ensures Enabled(s, claim) && OwnsOnly(Apply(s, claim), before)
      ensures Apply(s, claim).rows == after && Apply(s, claim).log == s.log && Apply(s, claim).now == s.now
      ensures var hand := Get(Apply(s, claim), workerId).inHand;
              Get(Apply(s, claim), workerId).unlogged.None? && Events(hand) == claim.picked
    {
      var s' := Apply(s, claim);
      var hand := Get(s', workerId).inHand;
      assert Events(hand) == claim.picked;
      forall e | e in s'.rows && s'.rows[e].claimedBy == Some(workerId)
        ensures (e in before && before[e].claimedBy == Some(workerId)) || InHand(s', e)
      {
        if e in claim.picked {
          var k :| 0 <= k < |claim.picked| && claim.picked[k] == e;
          assert hand[k] in hand && hand[k].event == e;
        } else {
          assert s.rows[e].claimedBy == Some(workerId) && !InHand(s, e);
        }
      }
    }

    static function Events(hand: seq<Lease>): seq<EventId> {
      seq(|hand|, i requires 0 <= i < |hand| => hand[i].event)
    }

    lemma NextInHand(s: Sys, hand: seq<Lease>, picked: seq<EventId>, j: nat)
      requires Events(hand) == picked && j < |picked| && Get(s, workerId) == Worker(hand[j..], None)
      ensures Busy(s, workerId) && Current(s, workerId) == picked[j] && Get(s, workerId).inHand[1..] == hand[j + 1..]
    {
      Rest(hand, j);
    }

    lemma OneMoreSettled(s: Sys, steps: seq<Step>, more: seq<Step>, picked: seq<EventId>, j: nat)
      requires Run(s, steps) && Pass(s, steps) && Run(Final(s, steps), more) && Pass(Final(s, steps), more)
      requires ClaimedChannels(steps) == ClaimedChannels(more) == []
               && ClaimedEvents(steps) == ClaimedEvents(more) == []
      requires j < |picked| && SettledEvents(s, steps) == picked[..j]
               && SettledEvents(Final(s, steps), more) == [picked[j]]
      ensures Run(s, steps + more) && Pass(s, steps + more) && Final(s, steps + more) == Final(Final(s, steps), more)
      ensures ClaimedChannels(steps + more) == [] && ClaimedEvents(steps + more) == []
      ensures SettledEvents(s, steps + more) == picked[..j + 1]
    {
      ExtendBy(s, steps, more);
      PrefixStep([], picked, j);
    }

    method ProcessAll(db: Database, picked: seq<EventId>, s: Sys, others: Others, n: nat, ghost before: Table)
      returns (s': Sys, n': nat, ghost steps: seq<Step>)
      requires LeavesAlone(others, workerId) && Mirrors(s, db) && OwnsOnly(s, before)
      requires Get(s, workerId).unlogged.None? && Events(Get(s, workerId).inHand) == picked
      modifies db
      ensures Run(s, steps) && Pass(s, steps) && Final(s, steps) == s' && Mirrors(s', db) && OwnsOnly(s', before)
      ensures Get(s', workerId) == IDLE
      ensures ClaimedChannels(steps) == [] && ClaimedEvents(steps) == [] && SettledEvents(s, steps) == picked
    {
      s', n', steps := s, n, [];
      ghost var hand := Get(s, workerId).inHand;
      for j := 0 to |picked|
        invariant Run(s, steps) && Pass(s, steps) && Final(s, steps) == s'
        invariant Mirrors(s', db) && OwnsOnly(s', before)
        invariant Get(s', workerId) == Worker(hand[j..], None)
        invariant ClaimedChannels(steps) == [] && ClaimedEvents(steps) == [] && SettledEvents(s, steps) == picked[..j]
      {
        NextInHand(s', hand, picked, j);
        ghost var more, at;
        s', n', more, at := ProcessOne(db, picked[j], s', others, n', before);
        OneMoreSettled(s, steps, more, picked, j);
        steps := steps + more;
      }
      assert picked[..|picked|] == picked;
    }
  }
}
