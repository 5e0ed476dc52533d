/** What filtering acks and fails by event id alone can lose, and exactly when it does. */
module LeaseLoss {
  import opened Options
  import opened OrderedSelect
  import opened EventStore
  import opened LeaseProtocol

  // ---------- a newcomer's claim ----------

  /** Workers are unlimited: some id has never been used. */
  lemma {:induction false} LongerThanAll(ids: set<WorkerId>) returns (n: nat)
    ensures forall w :: w in ids ==> |w| < n
  {
    n := 0;
    if ids != {} {
      var w :| w in ids;
      var m := LongerThanAll(ids - {w});
      n := if |w| < m then m else |w| + 1;
    }
  }

  lemma Newcomer(s: Sys) returns (u: WorkerId)
    ensures u !in s.workers
  {
    var n := LongerThanAll(s.workers.Keys);
    u := seq(n, i => 'w');
  }

  /** Every query has a legal answer. */
  lemma {:induction false} AnswerExists(eligible: set<EventId>, key: EventId -> int) returns (picked: seq<EventId>)
    ensures OldestFirst(eligible, key, -1, picked)
  {
    if eligible == {} {
      picked := [];
    } else {
      var m := Youngest(eligible, key);
      var front := AnswerExists(eligible - {m}, key);
      UnboundedTakesAll(eligible - {m}, key, -1, front);
      picked := front + [m];
      assert forall x :: x in front <==> x in Elements(front);
    }
  }

  lemma {:induction false} Youngest(rows: set<EventId>, key: EventId -> int) returns (m: EventId)
    requires rows != {}
    ensures m in rows && forall x :: x in rows ==> key(x) <= key(m)
  {
    m :| m in rows;
    if rows != {m} {
      var n := Youngest(rows - {m}, key);
      m := if key(m) < key(n) then n else m;
    }
  }

  /** A free row can be claimed by somebody new, with a lease that is live. */
  lemma SomebodyClaims(s: Sys, e: EventId) returns (claim: Step)
    requires e in s.rows && Free(s.rows[e], s.rows[e].channel, s.now)
    ensures claim.Claim? && claim.w !in s.workers
    ensures Enabled(s, claim) && HoldsLive(Apply(s, claim), claim.w, e)
  {
    var u := Newcomer(s);
    var channel := s.rows[e].channel;
    var free := FreeIds(s.rows, channel, s.now);
    var picked := AnswerExists(free, RecordedAt(s.rows));
    UnboundedTakesAll(free, RecordedAt(s.rows), -1, picked);
    claim := Claim(u, channel, -1, 0.0, picked);
    assert e in Elements(picked);
    var k :| 0 <= k < |picked| && picked[k] == e;
    var hand := Get(Apply(s, claim), u).inHand;
    assert hand[k] in hand && hand[k] == Lease(e, s.now, 0.0);
  }

  // ---------- exactly what is lost ----------

  /** A fail loses exclusivity exactly when somebody else holds the event live and it is not processed:
      then, and only then, can a run whose every later fail is disciplined end with two live holders. */
  lemma FailLosesExactly(s: Sys, fail: Step)
    requires HeldOrDone(s) && Enabled(s, fail) && fail.Fail?
    ensures (exists steps :: LosesExclusivity(Apply(s, fail), steps)) <==> Frees(s, fail)
  {
    var s' := Apply(s, fail);
    if Frees(s, fail) {
      var e := Current(s, fail.w);
      var v :| v != fail.w && HoldsLive(s, v, e);
      assert HoldsLive(s', v, e);
      var claim := SomebodyClaims(s', e);
      var s'' := Apply(s', claim);
      assert HoldsLive(s'', v, e) && claim.w != v;
      RunFrom(s', claim, []);
      assert [claim][1..] == [];
      assert Final(s', [claim]) == s'' && !Exclusive(s'');
      assert LosesExclusivity(s', [claim]);
    } else {
      HeldOrDoneKept(s, fail);
      forall steps ensures !LosesExclusivity(s', steps) {
        if Run(s', steps) && FailsDisciplinedRun(s', steps) {
          HeldOrDoneThroughout(s', steps);
        }
      }
    }
  }

  /** A run whose fails are all disciplined ends with two live holders of one event. */
  ghost predicate LosesExclusivity(s: Sys, steps: seq<Step>) {
    Run(s, steps) && FailsDisciplinedRun(s, steps) && !Exclusive(Final(s, steps))
  }

  /** While every live holder is the one its row records, a fail loses exclusivity exactly when somebody
      else holds the event live. */
  lemma FailLosesWhenRivalled(s: Sys, fail: Step)
    requires Held(s) && Enabled(s, fail) && fail.Fail?
    ensures (exists steps :: LosesExclusivity(Apply(s, fail), steps)) <==> !Unrivalled(s, fail.w)
  {
    FailLosesExactly(s, fail);
    if !Unrivalled(s, fail.w) {
      var v :| v != fail.w && HoldsLive(s, v, Current(s, fail.w));
      var l :| l in Get(s, v).inHand && l.event == Current(s, fail.w) && Live(l, s.now);
      assert Records(s.rows[l.event], v, l);
    }
  }

  /** An ack, however late and whoever holds the event, loses nothing. */
  lemma AckLosesNothing(s: Sys, ack: Step, steps: seq<Step>)
    requires HeldOrDone(s) && Enabled(s, ack) && ack.Ack?
    ensures !LosesExclusivity(Apply(s, ack), steps)
  {
    HeldOrDoneKept(s, ack);
    var s' := Apply(s, ack);
    if Run(s', steps) && FailsDisciplinedRun(s', steps) {
      HeldOrDoneThroughout(s', steps);
    }
  }

  // The counterexample: states of a table with one event "e" and workers A, B, C.

  const A_CLAIMS := Claim("A", "c", 1, 0.0, ["e"])
  const B_CLAIMS := Claim("B", "c", 1, 30.0, ["e"])
  const C_CLAIMS := Claim("C", "c", 1, 30.0, ["e"])

  ghost predicate OnlyRow(s: Sys, owner: Option<WorkerId>, expires: Option<int>) {
    s.rows.Keys == {"e"} && s.rows["e"].channel == "c" && !s.rows["e"].processed
    && s.rows["e"].claimedBy == owner && s.rows["e"].leaseExpires == expires
  }

  lemma ClaimsTheEvent(s: Sys, w: WorkerId, lease: real)
    requires s.rows.Keys == {"e"} && Free(s.rows["e"], "c", s.now) && Get(s, w) == IDLE
    ensures var claim := Claim(w, "c", 1, lease, ["e"]);
            var expires := Stamp(s.now + lease);
            && Enabled(s, claim)
            && OnlyRow(Apply(s, claim), Some(w), Some(expires)) && Apply(s, claim).now == s.now
            && Get(Apply(s, claim), w) == Worker([Lease("e", s.now, lease)], None)
            && (forall v :: v != w ==> Get(Apply(s, claim), v) == Get(s, v))
  {
    assert FreeIds(s.rows, "c", s.now) == {"e"};
    assert LeasesFor(["e"], s.now, lease) == [Lease("e", s.now, lease)];
  }

  const A_HOLDS := Worker([Lease("e", 0.0, 0.0)], None)
  const B_HOLDS := Worker([Lease("e", 1.0, 30.0)], None)

  lemma AClaims(s: Sys)
    requires OnlyRow(s, None, None) && s.now == 0.0 && forall w :: Get(s, w) == IDLE
    ensures Enabled(s, A_CLAIMS)
    ensures var s' := Apply(s, A_CLAIMS);
            && OnlyRow(s', Some("A"), Some(0)) && s'.now == 0.0
            && Get(s', "A") == A_HOLDS && Get(s', "B") == IDLE && Get(s', "C") == IDLE
  {
    ClaimsTheEvent(s, "A", 0.0);
  }

  lemma LeaseRunsOut(s: Sys)
    requires OnlyRow(s, Some("A"), Some(0)) && s.now == 0.0
    ensures Enabled(s, Tick(1.0)) && Apply(s, Tick(1.0)) == s.(now := 1.0)
    ensures Free(s.rows["e"], "c", 1.0)
  {
  }

  lemma BClaims(s: Sys)
    requires OnlyRow(s, Some("A"), Some(0)) && s.now == 1.0 && Free(s.rows["e"], "c", 1.0)
    requires Get(s, "A") == A_HOLDS && Get(s, "B") == IDLE && Get(s, "C") == IDLE
    ensures Enabled(s, B_CLAIMS)
    ensures var s' := Apply(s, B_CLAIMS);
            && OnlyRow(s', Some("B"), Some(31)) && s'.now == 1.0
            && Get(s', "A") == A_HOLDS && Get(s', "B") == B_HOLDS && Get(s', "C") == IDLE
  {
    ClaimsTheEvent(s, "B", 30.0);
  }

  /** A's lease runs out while it works, and B claims the event. */
  lemma BTakesOver(s0: Sys) returns (steps: seq<Step>, s3: Sys)
    requires OnlyRow(s0, None, None) && s0.now == 0.0 && forall w :: Get(s0, w) == IDLE
    ensures Run(s0, steps) && Final(s0, steps) == s3
    ensures OnlyRow(s3, Some("B"), Some(31)) && s3.now == 1.0
    ensures Get(s3, "A") == A_HOLDS && Get(s3, "B") == B_HOLDS && Get(s3, "C") == IDLE
  {
    AClaims(s0);
    var s1 := Apply(s0, A_CLAIMS);
    LeaseRunsOut(s1);
    var s2 := Apply(s1, Tick(1.0));
    BClaims(s2);
    s3 := Apply(s2, B_CLAIMS);
    RunFrom(s2, B_CLAIMS, []);
    RunFrom(s1, Tick(1.0), [B_CLAIMS] + []);
    RunFrom(s0, A_CLAIMS, [Tick(1.0)] + ([B_CLAIMS] + []));
    steps := [A_CLAIMS] + ([Tick(1.0)] + ([B_CLAIMS] + []));
  }

  /** A then fails the event, which frees the row under B, and C claims it. */
  lemma CClaimsToo(s3: Sys) returns (steps: seq<Step>)
    requires OnlyRow(s3, Some("B"), Some(31)) && s3.now == 1.0
    requires Get(s3, "A") == A_HOLDS && Get(s3, "B") == B_HOLDS && Get(s3, "C") == IDLE
    ensures Run(s3, steps) && !Exclusive(Final(s3, steps))
  {
    var s4 := Apply(s3, Fail("A", "x"));
    assert s4.rows.Keys == {"e"};
    ClaimsTheEvent(s4, "C", 30.0);
    var s5 := Apply(s4, C_CLAIMS);
    assert Lease("e", 1.0, 30.0) == Get(s5, "B").inHand[0] && Lease("e", 1.0, 30.0) == Get(s5, "C").inHand[0];
    assert HoldsLive(s5, "B", "e") && HoldsLive(s5, "C", "e");
    RunFrom(s4, C_CLAIMS, []);
    RunFrom(s3, Fail("A", "x"), [C_CLAIMS]);
    steps := [Fail("A", "x")] + [C_CLAIMS];
  }

  /** Without the discipline the guarantee is lost: worker A fails the event after its lease ran out
      and while B holds it live; the row becomes free, and C claims it too. */
  lemma LateFailBreaksExclusivity() returns (s: Sys, steps: seq<Step>)
    ensures Init(s) && Run(s, steps) && !Exclusive(Final(s, steps))
  {
    s := Sys(0.0, map["e" := Row("c", 0, false, 0, None, None, None)], [], map[]);
    var early, middle := BTakesOver(s);
    var late := CClaimsToo(middle);
    RunAppend(s, early, late);
    steps := early + late;
  }
}
