/** How long a claimable event may be passed over, in any run of the workers over the table. */
module LeaseWaiting {
  import opened Collections
  import opened OrderedSelect
  import opened EventStore
  import opened LeaseProtocol

  ghost predicate Waiting(s: Sys, e: EventId) {
    e in s.rows && Free(s.rows[e], s.rows[e].channel, s.now)
  }

  /** A new event can be claimed on its channel at any time, and an unlimited claim there takes it. */
  lemma InsertedWaits(s: Sys, batch: seq<NewEvent>, n: NewEvent, at: real, w: WorkerId, limit: int, term: real,
                      picked: seq<EventId>)
    requires Enabled(s, Insert(batch)) && n in batch && limit < 0
    ensures var s' := Apply(s, Insert(batch)).(now := at);
            && Waiting(s', n.id) && s'.rows[n.id].channel == n.channel
            && (Enabled(s', Claim(w, n.channel, limit, term, picked)) ==> n.id in picked)
  {
    InsertAdds(s.rows, batch);
    var s' := Apply(s, Insert(batch)).(now := at);
    var free := FreeIds(s'.rows, n.channel, at);
    assert n.id in free;
    if Enabled(s', Claim(w, n.channel, limit, term, picked)) {
      UnboundedTakesAll(free, RecordedAt(s'.rows), limit, picked);
      assert n.id in Elements(picked);
    }
  }

  /** The claimable rows that a claimable event waits behind. */
  ghost function Before(s: Sys, e: EventId): set<EventId>
    requires e in s.rows
  {
    Ahead(s.rows, e, s.now) - {e}
  }

  ghost predicate ClaimsFor(s: Sys, step: Step, e: EventId)
    requires e in s.rows
  {
    step.Claim? && step.channel == s.rows[e].channel
  }

  /** The event can be claimed before and after the step, and is not taken by it. */
  ghost predicate PassesOver(s: Sys, step: Step, e: EventId) {
    && Enabled(s, step) && Waiting(s, e) && Waiting(Apply(s, step), e)
    && !(step.Claim? && e in step.picked)
  }

  ghost function Taken(s: Sys, step: Step, e: EventId): set<EventId>
    requires e in s.rows
  {
    if ClaimsFor(s, step, e) then Elements(step.picked) else {}
  }

  /** The rows that a step puts ahead of the event. */
  ghost function Returned(s: Sys, step: Step, e: EventId): set<EventId>
    requires PassesOver(s, step, e)
  {
    Before(Apply(s, step), e) - (Before(s, e) - Taken(s, step, e))
  }

  /** Only four things do: an insert, a fail, time running over a lease, and a claim for a lease that is
      over at once. */
  lemma ReturnedOnly(s: Sys, step: Step, e: EventId, x: EventId)
    requires PassesOver(s, step, e) && x in Returned(s, step, e)
    ensures match step
            case Insert(_) => x !in s.rows
            case Fail(w, _) => x == Current(s, w)
            case Tick(dt) =>
              x in s.rows && s.rows[x].leaseExpires.Some?
              && Stamp(s.now) <= s.rows[x].leaseExpires.value < Stamp(s.now + dt)
            case Claim(_, _, _, leaseSeconds, picked) => x in picked && Stamp(s.now + leaseSeconds) < Stamp(s.now)
            case _ => false
  {
    var s' := Apply(s, step);
    assert Free(s'.rows[x], s'.rows[e].channel, s'.now);
    if step.Insert? {
      InsertAdds(s.rows, step.batch);
    }
  }

  lemma StepWaits(s: Sys, step: Step, e: EventId)
    requires PassesOver(s, step, e)
    ensures (if ClaimsFor(s, step, e) then step.limit else 0) + |Before(Apply(s, step), e)|
            <= |Before(s, e)| + |Returned(s, step, e)|
    ensures ClaimsFor(s, step, e) ==> step.limit >= 0
  {
    if ClaimsFor(s, step, e) {
      LeftBehind(s.rows, e, s.now, step.limit, step.picked);
    }
    TakenAndReturned(Before(s, e), Taken(s, step, e), Before(Apply(s, step), e));
  }

  lemma TakenAndReturned<T>(before: set<T>, taken: set<T>, after: set<T>)
    requires taken <= before
    ensures |taken| + |after| <= |before| + |after - (before - taken)|
  {
    assert before == (before - taken) + taken;
    SubsetIsSmaller(after, (before - taken) + (after - (before - taken)));
  }

  /** The event can be claimed all the time, and never is. */
  ghost predicate Waits(s: Sys, steps: seq<Step>, e: EventId)
    requires Run(s, steps)
    decreases steps
  {
    Waiting(s, e) && (steps == [] || (PassesOver(s, steps[0], e) && Waits(Apply(s, steps[0]), steps[1..], e)))
  }

  /** The limits, added up, of the claims that passed it over. */
  ghost function Limits(s: Sys, steps: seq<Step>, e: EventId): int
    requires Run(s, steps) && Waits(s, steps, e)
    decreases steps
  {
    if steps == [] then 0
    else (if ClaimsFor(s, steps[0], e) then steps[0].limit else 0) + Limits(Apply(s, steps[0]), steps[1..], e)
  }

  /** Their number. */
  ghost function Passes(s: Sys, steps: seq<Step>, e: EventId): nat
    requires Run(s, steps) && Waits(s, steps, e)
    decreases steps
  {
    if steps == [] then 0
    else (if ClaimsFor(s, steps[0], e) then 1 else 0) + Passes(Apply(s, steps[0]), steps[1..], e)
  }

  /** How often, on the way, a row was put ahead of it. */
  ghost function Returns(s: Sys, steps: seq<Step>, e: EventId): nat
    requires Run(s, steps) && Waits(s, steps, e)
    decreases steps
  {
    if steps == [] then 0
    else |Returned(s, steps[0], e)| + Returns(Apply(s, steps[0]), steps[1..], e)
  }

  /** Waiting is bounded, in every run: the limits of the claims that pass an event over add up to at most
      the claimable rows ahead of it at the start, and those put there on the way. */
  lemma {:induction false} WaitIsBounded(s: Sys, steps: seq<Step>, e: EventId)
    requires Run(s, steps) && Waits(s, steps, e)
    ensures e in Final(s, steps).rows
    ensures Limits(s, steps, e) + |Before(Final(s, steps), e)| <= |Before(s, e)| + Returns(s, steps, e)
    decreases steps
  {
    if steps != [] {
      StepWaits(s, steps[0], e);
      WaitIsBounded(Apply(s, steps[0]), steps[1..], e);
    }
  }

  ghost predicate OneLimit(steps: seq<Step>, limit: int) {
    forall step :: step in steps && step.Claim? ==> step.limit == limit
  }

  /** With one limit for all claims: it is passed over by at most one claim in so many rows. */
  lemma PassedOverAtMost(s: Sys, steps: seq<Step>, e: EventId, limit: int)
    requires Run(s, steps) && Waits(s, steps, e) && OneLimit(steps, limit)
    ensures Passes(s, steps, e) * limit <= |Before(s, e)| + Returns(s, steps, e)
  {
    WaitIsBounded(s, steps, e);
    LimitsOfPasses(s, steps, e, limit);
  }

  lemma {:induction false} LimitsOfPasses(s: Sys, steps: seq<Step>, e: EventId, limit: int)
    requires Run(s, steps) && Waits(s, steps, e) && OneLimit(steps, limit)
    ensures Limits(s, steps, e) == Passes(s, steps, e) * limit
    decreases steps
  {
    if steps != [] {
      OneLimitFirst(steps, limit);
      var s', rest := Apply(s, steps[0]), steps[1..];
      LimitsOfPasses(s', rest, e, limit);
      OneMore(Passes(s', rest, e), limit);
      assert Passes(s, steps, e) == (if ClaimsFor(s, steps[0], e) then 1 else 0) + Passes(s', rest, e);
    }
  }

  lemma OneLimitFirst(steps: seq<Step>, limit: int)
    requires steps != [] && OneLimit(steps, limit)
    ensures steps[0].Claim? ==> steps[0].limit == limit
    ensures OneLimit(steps[1..], limit)
  {
    assert steps[0] in steps;
    assert forall step :: step in steps[1..] ==> step in steps;
  }

  lemma OneMore(n: int, limit: int)
    ensures (1 + n) * limit == limit + n * limit
  {
  }
}
