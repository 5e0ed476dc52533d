/** When do workers keep the discipline the lease protocol needs? When their handlers are fast enough,
    whatever the other workers do in between. */
module LeaseTiming {
  import opened Collections
  import opened Options
  import opened EventStore
  import opened LeaseProtocol

  // ---------- acking and failing within the lease ----------

  /** An ack or a fail comes no later than the seconds its event was leased for. */
  predicate InTime(s: Sys, step: Step) {
    (step.Ack? || step.Fail?) && Busy(s, step.w) ==>
      var l := Get(s, step.w).inHand[0];
      s.now <= l.claimedAt + l.term
  }

  ghost predicate InTimeRun(s: Sys, steps: seq<Step>)
    requires Run(s, steps)
    decreases steps
  {
    steps == [] || (InTime(s, steps[0]) && InTimeRun(Apply(s, steps[0]), steps[1..]))
  }

  /** The row's expiry is cut to whole seconds, and so is the clock it is compared with: a worker that is
      in time by its own clock finds its lease live. */
  lemma InTimeIsDisciplined(s: Sys, step: Step)
    requires Enabled(s, step) && InTime(s, step)
    ensures Disciplined(s, step)
  {
  }

  lemma {:induction false} InTimeRunIsDisciplined(s: Sys, steps: seq<Step>)
    requires Run(s, steps) && InTimeRun(s, steps)
    ensures DisciplinedRun(s, steps)
    decreases steps
  {
    if steps != [] {
      InTimeIsDisciplined(s, steps[0]);
      InTimeRunIsDisciplined(Apply(s, steps[0]), steps[1..]);
    }
  }

  // ---------- handlers of bounded length ----------

  /** When each worker last claimed, acked or failed: since then it has been in one handler. */
  type Since = map<WorkerId, real>

  function Acted(s: Sys, since: Since, step: Step): Since {
    if step.Claim? || step.Ack? || step.Fail? then since[step.w := s.now] else since
  }

  /** A handler, with the transactions about it, takes at most `d` seconds; and a claim asks for a lease
      that lasts for as many handlers as it may take events. */
  predicate Paced(s: Sys, since: Since, step: Step, d: real) {
    match step
    case Claim(_, _, limit, leaseSeconds, _) => 0 <= limit && limit as real * d <= leaseSeconds
    case Ack(w) => w in since ==> s.now <= since[w] + d
    case Fail(w, _) => w in since ==> s.now <= since[w] + d
    case _ => true
  }

  ghost predicate PacedRun(s: Sys, since: Since, steps: seq<Step>, d: real)
    requires Run(s, steps)
    decreases steps
  {
    steps == [] ||
    (Paced(s, since, steps[0], d) && PacedRun(Apply(s, steps[0]), Acted(s, since, steps[0]), steps[1..], d))
  }

  /** Every worker has time left for all it has in hand. */
  ghost predicate TimeLeft(s: Sys, since: Since, d: real) {
    forall w, l :: l in Get(s, w).inHand ==> HasTime(s, since, d, w, l)
  }

  ghost predicate HasTime(s: Sys, since: Since, d: real, w: WorkerId, l: Lease) {
    w in since && since[w] + |Get(s, w).inHand| as real * d <= l.claimedAt + l.term
  }

  lemma ClaimLeavesTime(s: Sys, since: Since, claim: Step, d: real)
    requires Enabled(s, claim) && claim.Claim? && d >= 0.0 && Paced(s, since, claim, d)
    ensures s.now + |claim.picked| as real * d <= s.now + claim.leaseSeconds
  {
    Scaled(|claim.picked|, claim.limit, d);
  }

  lemma Scaled(m: nat, n: nat, d: real)
    requires m <= n && d >= 0.0
    ensures m as real * d <= n as real * d
  {
    assert (n as real - m as real) * d >= 0.0;
  }

  /** Settling one event takes one handler's time off what is left. */
  lemma SettlingLeavesTime(s: Sys, since: Since, step: Step, d: real, l: Lease)
    requires Enabled(s, step) && (step.Ack? || step.Fail?) && d >= 0.0
    requires Paced(s, since, step, d) && TimeLeft(s, since, d)
    requires l in Get(s, step.w).inHand
    ensures s.now + |Get(s, step.w).inHand[1..]| as real * d <= l.claimedAt + l.term
    ensures s.now <= l.claimedAt + l.term
  {
    var hand := Get(s, step.w).inHand;
    OneHandler(|hand|, d);
    assert |hand[1..]| == |hand| - 1;
    assert HasTime(s, since, d, step.w, l);
  }

  /** A step of a paced run is in time and leaves time. */
  lemma PacedStep(s: Sys, since: Since, step: Step, d: real)
    requires Enabled(s, step) && d >= 0.0 && Paced(s, since, step, d) && TimeLeft(s, since, d)
    ensures InTime(s, step) && TimeLeft(Apply(s, step), Acted(s, since, step), d)
  {
    var s', since' := Apply(s, step), Acted(s, since, step);
    if step.Ack? || step.Fail? {
      assert Get(s, step.w).inHand[0] in Get(s, step.w).inHand;
      SettlingLeavesTime(s, since, step, d, Get(s, step.w).inHand[0]);
    }
    forall w, l | l in Get(s', w).inHand
      ensures HasTime(s', since', d, w, l)
    {
      if step.Claim? && step.w == w {
        ClaimLeavesTime(s, since, step, d);
        assert l.claimedAt == s.now && l.term == step.leaseSeconds;
      } else if (step.Ack? || step.Fail?) && step.w == w {
        assert Get(s', w).inHand == Get(s, w).inHand[1..];
        SettlingLeavesTime(s, since, step, d, l);
      } else {
        assert Get(s', w).inHand == Get(s, w).inHand && HasTime(s, since, d, w, l);
      }
    }
  }

  lemma OneHandler(n: nat, d: real)
    requires n > 0 && d >= 0.0
    ensures n as real * d == (n - 1) as real * d + d && (n - 1) as real * d >= 0.0
  {
    Scaled(0, n - 1, d);
  }

  lemma {:induction false} PacedRunIsInTime(s: Sys, since: Since, steps: seq<Step>, d: real)
    requires Run(s, steps) && d >= 0.0 && PacedRun(s, since, steps, d) && TimeLeft(s, since, d)
    ensures InTimeRun(s, steps)
    decreases steps
  {
    if steps != [] {
      PacedStep(s, since, steps[0], d);
      PacedRunIsInTime(Apply(s, steps[0]), Acted(s, since, steps[0]), steps[1..], d);
    }
  }

  /** Any number of workers, in any interleaving, crashes included: if no event is acked or failed later
      than the seconds it was leased for, no event is ever held live by two of them. */
  lemma WorkersInTimeExclude(s: Sys, steps: seq<Step>)
    requires Init(s) && Run(s, steps) && InTimeRun(s, steps)
    ensures Exclusive(Final(s, steps)) && Recorded(Final(s, steps))
  {
    InTimeRunIsDisciplined(s, steps);
    ExclusiveLeases(s, steps);
  }

  /** In terms of the handlers: it is enough that each takes at most `d` seconds, and that claims are
      configured with `claim_limit * d <= lease_seconds`. With the defaults of ten events and thirty
      seconds, that is three seconds a handler. */
  lemma BoundedHandlersExclude(s: Sys, steps: seq<Step>, d: real)
    requires Init(s) && Run(s, steps) && d >= 0.0 && PacedRun(s, map[], steps, d)
    ensures Exclusive(Final(s, steps)) && Recorded(Final(s, steps))
  {
    PacedRunIsInTime(s, map[], steps, d);
    WorkersInTimeExclude(s, steps);
  }
}
