/** Every run of replays, teardowns, crashes and startup sweeps over one shadow database. Each commit to
    either database is one step. Startup sweeps before it serves, and there is one process. */
module SeedProtocol {
  import opened Collections
  import opened Json
  import opened OrderedSelect
  import opened ShadowSeeds

  type ReplayId = nat

  /** How far a replay that needs a post has come. One that seeded it: its row committed, its seed logged
      (the replayed request runs here), its row deleted again. One that found it present just runs. */
  datatype Stage =
    | Inserted(post: PostId)
    | Logged(post: PostId, id: nat)
    | Deleted(post: PostId, id: nat)
    | Found(post: PostId)
  {
    /** The row is this replay's to delete, and still there. */
    predicate OwnsRow() {
      Inserted? || Logged?
    }

    predicate HasEntry() {
      Logged? || Deleted?
    }
  }

  datatype Process =
    | Down
    | Sweeping(todo: seq<nat>, handled: bool)
    | Serving(replays: map<ReplayId, Stage>)

  datatype Sys = Sys(db: Tables, proc: Process)

  datatype Step =
    | Start(todo: seq<nat>)
    | Handle
    | Mark
    | Serve
    | Seed(r: ReplayId, brick: Brick)
    | Log(r: ReplayId)
    | Create(p: PostId)
    | Remove(r: ReplayId)
    | Finish(r: ReplayId)
    | Leave(r: ReplayId)
    | Abandon(r: ReplayId)
    | Crash

  function Replays(s: Sys): map<ReplayId, Stage> {
    if s.proc.Serving? then s.proc.replays else map[]
  }

  /** A post the application creates gets a new random id: one nothing has ever named. */
  ghost predicate Unheard(s: Sys, p: PostId) {
    && p !in s.db.posts && !Recoverable(s.db, p)
    && forall r :: r in Replays(s) ==> Replays(s)[r].post != p
  }

  ghost predicate Enabled(s: Sys, step: Step) {
    match step
    case Start(todo) => s.proc.Down? && PendingList(s.db, todo)
    case Handle => s.proc.Sweeping? && s.proc.todo != [] && s.proc.todo[0] < |s.db.log| && !s.proc.handled
    case Mark => s.proc.Sweeping? && s.proc.todo != [] && s.proc.handled
    case Serve => s.proc.Sweeping? && s.proc.todo == []
    case Seed(r, _) => s.proc.Serving? && r !in s.proc.replays
    case Log(r) => r in Replays(s) && Replays(s)[r].Inserted?
    case Create(p) => s.proc.Serving? && Unheard(s, p)
    case Remove(r) => r in Replays(s) && Replays(s)[r].Logged?
    case Finish(r) => r in Replays(s) && Replays(s)[r].Deleted?
    case Leave(r) => r in Replays(s) && Replays(s)[r].Found?
    case Abandon(r) => r in Replays(s)
    case Crash => true
  }

  ghost function At(s: Sys, r: ReplayId, stage: Stage): Process {
    Serving(Replays(s)[r := stage])
  }

  ghost function Without(s: Sys, r: ReplayId): Process {
    Serving(Replays(s) - {r})
  }

  /** `Abandon` is an exception from either database: the replay ends where it stands. */
  ghost function Apply(s: Sys, step: Step): Sys
    requires Enabled(s, step)
  {
    match step
    case Start(todo) => s.(proc := Sweeping(todo, false))
    case Handle => Sys(AfterHandler(s.db, s.proc.todo[0]), Sweeping(s.proc.todo, true))
    case Mark => Sys(AfterMark(s.db, s.proc.todo[0]), Sweeping(s.proc.todo[1..], false))
    case Serve => s.(proc := Serving(map[]))
    case Seed(r, brick) =>
      var plan := PlanFor(brick);
      if !plan.SeedPost? then s
      else if plan.post in s.db.posts then s.(proc := At(s, r, Found(plan.post)))
      else Sys(AfterSeed(s.db, plan.post), At(s, r, Inserted(plan.post)))
    case Log(r) =>
      var p := Replays(s)[r].post;
      Sys(AfterLog(s.db, p), At(s, r, Logged(p, |s.db.log|)))
    case Create(p) => s.(db := s.db.(posts := s.db.posts[p := Foreign]))
    case Remove(r) =>
      var stage := Replays(s)[r];
      Sys(AfterDelete(s.db, stage.post), At(s, r, Deleted(stage.post, stage.id)))
    case Finish(r) => Sys(AfterMark(s.db, Replays(s)[r].id), Without(s, r))
    case Leave(r) => s.(proc := Without(s, r))
    case Abandon(r) => s.(proc := Without(s, r))
    case Crash => s.(proc := Down)
  }

  ghost predicate Run(s: Sys, steps: seq<Step>)
    decreases steps
  {
    steps == [] || (Enabled(s, steps[0]) && Run(Apply(s, steps[0]), steps[1..]))
  }

  ghost function Final(s: Sys, steps: seq<Step>): Sys
    requires Run(s, steps)
    decreases steps
  {
    if steps == [] then s else Final(Apply(s, steps[0]), steps[1..])
  }

  /** Serving starts with no replay in flight; a crash ends them all, an exception or an uneventful end
      one; and none of these writes a row. */
  lemma ProcessStepsWriteNothing(s: Sys, step: Step)
    requires Enabled(s, step) && (step.Serve? || step.Crash? || step.Leave? || step.Abandon? || step.Start?)
    ensures var s' := Apply(s, step);
            && s'.db == s.db
            && (step.Serve? ==> s'.proc.Serving? && s'.proc.replays == map[])
            && (step.Crash? ==> s'.proc.Down?)
            && (step.Start? ==> s'.proc.Sweeping? && s'.proc.todo == step.todo && !s'.proc.handled)
            && (step.Leave? || step.Abandon? ==> s'.proc.Serving? && s'.proc.replays == Replays(s) - {step.r})
  {
  }

  /** The application's own post is none of the seeders'. */
  lemma CreatedIsForeign(s: Sys, p: PostId)
    requires Enabled(s, Create(p))
    ensures var s' := Apply(s, Create(p));
            s'.db.posts == s.db.posts[p := Foreign] && s'.db.log == s.db.log && s'.proc == s.proc
  {
  }

  // ---------- what every run keeps ----------

  /** Each replay in flight owns its row and its log entry, alone. */
  ghost predicate Owned(s: Sys) {
    var m := Replays(s);
    && (forall r :: r in m && m[r].HasEntry() ==> Names(s.db, m[r].id, m[r].post))
    && (forall r :: r in m && m[r].OwnsRow() ==> m[r].post in s.db.posts && s.db.posts[m[r].post] == Seeded)
    && (forall r, q :: r in m && q in m && r != q && m[r].HasEntry() && m[q].HasEntry() ==> m[r].id != m[q].id)
    && (forall r, q :: r in m && q in m && r != q && m[r].OwnsRow() && m[q].OwnsRow() ==> m[r].post != m[q].post)
  }

  /** No pending entry names a row that no seeder made. */
  ghost predicate OnlySeededNamed(t: Tables) {
    forall p :: p in t.posts && Recoverable(t, p) ==> t.posts[p] == Seeded
  }

  /** A sweep under way knows every pending entry, and has really deleted what it is about to mark. */
  ghost predicate SweepKnows(s: Sys) {
    s.proc.Sweeping? ==>
      && PendingList(s.db, s.proc.todo)
      && (s.proc.handled ==> s.proc.todo != [] && Gone(s.db, s.proc.todo[0]))
  }

  predicate Gone(t: Tables, id: nat) {
    id < |t.log| && (t.log[id].domain == BLOG_POST ==> t.log[id].resource !in t.posts)
  }

  ghost predicate Consistent(s: Sys) {
    Owned(s) && OnlySeededNamed(s.db) && SweepKnows(s)
  }

  lemma NamesRecoverable(t: Tables, id: nat, p: PostId)
    requires Names(t, id, p)
    ensures Recoverable(t, p)
  {
  }

  lemma HandleConsistent(s: Sys)
    requires Consistent(s) && Enabled(s, Handle)
    ensures Consistent(Apply(s, Handle))
  {
    var s' := Apply(s, Handle);
    forall p ensures Recoverable(s'.db, p) <==> Recoverable(s.db, p) {
      SameLogSameRecoverable(s.db, s'.db, p);
    }
    assert forall id: nat :: Pending(s'.db, id) <==> Pending(s.db, id);
  }

  lemma MarkedPending(t: Tables, id: nat)
    ensures forall j: nat :: Pending(AfterMark(t, id), j) <==> Pending(t, j) && j != id
    ensures forall p :: Recoverable(AfterMark(t, id), p) ==> Recoverable(t, p)
    ensures forall j: nat, p :: Names(AfterMark(t, id), j, p) <==> Names(t, j, p) && j != id
  {
    forall p | Recoverable(AfterMark(t, id), p) ensures Recoverable(t, p) {
      var j: nat :| j < |t.log| && Names(AfterMark(t, id), j, p);
      assert Names(t, j, p);
    }
  }

  lemma MarkConsistent(s: Sys)
    requires Consistent(s) && Enabled(s, Mark)
    ensures Consistent(Apply(s, Mark))
  {
    var todo := s.proc.todo;
    MarkedPending(s.db, todo[0]);
    assert todo == [todo[0]] + todo[1..];
    assert forall id: nat :: id in todo[1..] <==> id in todo && id != todo[0];
  }

  lemma SeedConsistent(s: Sys, r: ReplayId, brick: Brick)
    requires Consistent(s) && Enabled(s, Seed(r, brick))
    ensures Consistent(Apply(s, Seed(r, brick)))
  {
    var s' := Apply(s, Seed(r, brick));
    forall p ensures Recoverable(s'.db, p) <==> Recoverable(s.db, p) {
      SameLogSameRecoverable(s.db, s'.db, p);
    }
    assert forall id: nat, p :: Names(s.db, id, p) ==> Names(s'.db, id, p);
  }

  lemma LoggedNames(t: Tables, p: PostId)
    ensures forall id: nat, q :: Names(AfterLog(t, p), id, q) <==> Names(t, id, q) || (id == |t.log| && q == p)
    ensures forall q :: Recoverable(AfterLog(t, p), q) <==> Recoverable(t, q) || q == p
  {
    var t' := AfterLog(t, p);
    forall q ensures Recoverable(t', q) <==> Recoverable(t, q) || q == p {
      if Recoverable(t', q) {
        var id: nat :| id < |t'.log| && Names(t', id, q);
        assert id < |t.log| ==> Names(t, id, q);
      }
      if Recoverable(t, q) {
        var id: nat :| id < |t.log| && Names(t, id, q);
        assert Names(t', id, q);
      }
      assert Names(t', |t.log|, p);
    }
  }

  lemma LogConsistent(s: Sys, r: ReplayId)
    requires Consistent(s) && Enabled(s, Log(r))
    ensures Consistent(Apply(s, Log(r)))
  {
    LoggedNames(s.db, Replays(s)[r].post);
  }

  lemma CreateConsistent(s: Sys, p: PostId)
    requires Consistent(s) && Enabled(s, Create(p))
    ensures Consistent(Apply(s, Create(p)))
  {
    var s' := Apply(s, Create(p));
    forall q ensures Recoverable(s'.db, q) <==> Recoverable(s.db, q) {
      SameLogSameRecoverable(s.db, s'.db, q);
    }
    assert forall id: nat, q :: Names(s.db, id, q) ==> Names(s'.db, id, q);
  }

  lemma RemoveConsistent(s: Sys, r: ReplayId)
    requires Consistent(s) && Enabled(s, Remove(r))
    ensures Consistent(Apply(s, Remove(r)))
  {
    var s' := Apply(s, Remove(r));
    forall p ensures Recoverable(s'.db, p) <==> Recoverable(s.db, p) {
      SameLogSameRecoverable(s.db, s'.db, p);
    }
    assert forall id: nat, p :: Names(s.db, id, p) ==> Names(s'.db, id, p);
  }

  lemma FinishConsistent(s: Sys, r: ReplayId)
    requires Consistent(s) && Enabled(s, Finish(r))
    ensures Consistent(Apply(s, Finish(r)))
  {
    MarkedPending(s.db, Replays(s)[r].id);
  }

  lemma StepConsistent(s: Sys, step: Step)
    requires Consistent(s) && Enabled(s, step)
    ensures Consistent(Apply(s, step))
  {
    match step
    case Handle => HandleConsistent(s);
    case Mark => MarkConsistent(s);
    case Seed(r, brick) => SeedConsistent(s, r, brick);
    case Log(r) => LogConsistent(s, r);
    case Create(p) => CreateConsistent(s, p);
    case Remove(r) => RemoveConsistent(s, r);
    case Finish(r) => FinishConsistent(s, r);
    case _ =>
  }

  /** In every run, crashes and exceptions anywhere: a replay in flight still has its own row and
      shares it with nobody, and no pending entry names a row that no seeder made. */
  lemma {:induction false} RunConsistent(s: Sys, steps: seq<Step>)
    requires Consistent(s) && Run(s, steps)
    ensures Consistent(Final(s, steps))
    decreases steps
  {
    if steps != [] {
      StepConsistent(s, steps[0]);
      RunConsistent(Apply(s, steps[0]), steps[1..]);
    }
  }

  lemma StepKeepsForeign(s: Sys, step: Step, p: PostId)
    requires Consistent(s) && Enabled(s, step) && p in s.db.posts && s.db.posts[p] == Foreign
    ensures var s' := Apply(s, step); p in s'.db.posts && s'.db.posts[p] == Foreign
  {
    if step.Handle? && s.db.log[s.proc.todo[0]].domain == BLOG_POST && s.db.log[s.proc.todo[0]].resource == p {
      assert s.proc.todo[0] in s.proc.todo;
      NamesRecoverable(s.db, s.proc.todo[0], p);
    }
  }

  /** A row no seeder made is never deleted, neither by a teardown nor by a sweep, in any run. */
  lemma {:induction false} ForeignRowsSurvive(s: Sys, steps: seq<Step>, p: PostId)
    requires Consistent(s) && Run(s, steps) && p in s.db.posts && s.db.posts[p] == Foreign
    ensures var s' := Final(s, steps); p in s'.db.posts && s'.db.posts[p] == Foreign
    decreases steps
  {
    if steps != [] {
      StepConsistent(s, steps[0]);
      StepKeepsForeign(s, steps[0], p);
      ForeignRowsSurvive(Apply(s, steps[0]), steps[1..], p);
    }
  }

  // ---------- every seeded row can be recovered ----------

  ghost predicate Finishing(s: Sys, id: nat) {
    exists r :: r in Replays(s) && Replays(s)[r].Deleted? && Replays(s)[r].id == id
  }

  ghost predicate Unlogged(s: Sys, p: PostId) {
    exists r :: r in Replays(s) && Replays(s)[r] == Inserted(p)
  }

  /** A pending entry names the post, and no replay is about to mark it. */
  ghost predicate NamedFirmly(s: Sys, p: PostId) {
    exists id: nat :: Names(s.db, id, p) && !Finishing(s, id)
  }

  ghost predicate Covered(s: Sys) {
    forall p :: p in s.db.posts && s.db.posts[p] == Seeded ==> Unlogged(s, p) || NamedFirmly(s, p)
  }

  /** A crash that falls after the log write: every seed made so far is logged. */
  ghost predicate Careful(s: Sys, step: Step) {
    match step
    case Crash => forall r :: r in Replays(s) ==> !Replays(s)[r].Inserted?
    case Abandon(r) => r in Replays(s) ==> !Replays(s)[r].Inserted?
    case _ => true
  }

  ghost predicate CarefulRun(s: Sys, steps: seq<Step>)
    requires Run(s, steps)
    decreases steps
  {
    steps == [] || (Careful(s, steps[0]) && CarefulRun(Apply(s, steps[0]), steps[1..]))
  }

  lemma StepCovers(s: Sys, step: Step, p: PostId)
    requires Consistent(s) && Covered(s) && Enabled(s, step) && Careful(s, step)
    requires var s' := Apply(s, step); p in s'.db.posts && s'.db.posts[p] == Seeded
    ensures Unlogged(Apply(s, step), p) || NamedFirmly(Apply(s, step), p)
  {
    var s' := Apply(s, step);
    if p !in s.db.posts {
      assert Replays(s')[step.r] == Inserted(p);
    } else if Unlogged(s, p) {
      var r :| r in Replays(s) && Replays(s)[r] == Inserted(p);
      UnloggedStaysCovered(s, step, p, r);
    } else {
      var id: nat :| Names(s.db, id, p) && !Finishing(s, id);
      NamedStaysCovered(s, step, p, id);
    }
  }

  lemma UnloggedStaysCovered(s: Sys, step: Step, p: PostId, r: ReplayId)
    requires Consistent(s) && Enabled(s, step) && Careful(s, step)
    requires r in Replays(s) && Replays(s)[r] == Inserted(p)
    ensures Unlogged(Apply(s, step), p) || NamedFirmly(Apply(s, step), p)
  {
    var s' := Apply(s, step);
    if step == Log(r) {
      LoggedNames(s.db, p);
      assert Names(s'.db, |s.db.log|, p);
      assert !Finishing(s', |s.db.log|);
    } else {
      assert Replays(s')[r] == Inserted(p);
    }
  }

  lemma NamedStaysCovered(s: Sys, step: Step, p: PostId, id: nat)
    requires Consistent(s) && Enabled(s, step) && Names(s.db, id, p) && !Finishing(s, id)
    requires p in s.db.posts && p in Apply(s, step).db.posts
    ensures Names(Apply(s, step).db, id, p) && !Finishing(Apply(s, step), id)
  {
    match step
    case Mark => MarkedPending(s.db, s.proc.todo[0]);
    case Finish(r) => MarkedPending(s.db, Replays(s)[r].id);
    case _ =>
  }

  /** In every run whose crashes fall after the log write, every surviving seeded row has a pending log
      entry or is still waiting, in a live process, for the one it is about to get. */
  lemma {:induction false} SeededRowsAreLogged(s: Sys, steps: seq<Step>)
    requires Consistent(s) && Covered(s) && Run(s, steps) && CarefulRun(s, steps)
    ensures var s' := Final(s, steps);
            && Covered(s')
            && forall p :: p in s'.db.posts && s'.db.posts[p] == Seeded ==> Recoverable(s'.db, p) || Unlogged(s', p)
    decreases steps
  {
    if steps == [] {
      forall p | p in s.db.posts && s.db.posts[p] == Seeded ensures Recoverable(s.db, p) || Unlogged(s, p) {
        assert Unlogged(s, p) || NamedFirmly(s, p);
      }
    } else {
      StepConsistent(s, steps[0]);
      var s' := Apply(s, steps[0]);
      forall p | p in s'.db.posts && s'.db.posts[p] == Seeded ensures Unlogged(s', p) || NamedFirmly(s', p) {
        StepCovers(s, steps[0], p);
      }
      SeededRowsAreLogged(s', steps[1..]);
    }
  }

  /** So when a startup sweep ends and the process begins to serve, no seeded row and no pending entry
      is left. */
  lemma ServesClean(s: Sys, steps: seq<Step>)
    requires Consistent(s) && Covered(s) && Run(s, steps) && CarefulRun(s, steps)
    requires Enabled(Final(s, steps), Serve)
    ensures var t := Final(s, steps).db;
            && (forall p :: p in t.posts ==> t.posts[p] == Foreign)
            && (forall id: nat :: !Pending(t, id))
  {
    RunConsistent(s, steps);
    SeededRowsAreLogged(s, steps);
  }

  // ---------- crashes during the sweep ----------

  predicate Recovery(step: Step) {
    step.Start? || step.Handle? || step.Mark? || step.Serve? || step.Crash?
  }

  lemma RecoveryStep(s: Sys, step: Step)
    requires Consistent(s) && Enabled(s, step) && Recovery(step)
    ensures Swept(Apply(s, step).db) == Swept(s.db)
  {
    match step
    case Handle =>
      assert s.proc.todo[0] in s.proc.todo;
      HandlerKeepsSwept(s.db, s.proc.todo[0]);
    case Mark =>
      assert s.proc.todo[0] in s.proc.todo;
      MarkKeepsSwept(s.db, s.proc.todo[0]);
    case _ =>
  }

  /** However often a startup sweep crashes, in the middle of an entry or between two, and is started
      again: once it gets through, it leaves the tables one undisturbed sweep would have left. */
  lemma {:induction false} InterruptedSweepsConverge(s: Sys, steps: seq<Step>)
    requires Consistent(s) && Run(s, steps) && forall step :: step in steps ==> Recovery(step)
    ensures Swept(Final(s, steps).db) == Swept(s.db)
    ensures Enabled(Final(s, steps), Serve) ==> Final(s, steps).db == Swept(s.db)
    decreases steps
  {
    if steps == [] {
      if Enabled(s, Serve) {
        NothingPendingIsSwept(s.db);
      }
    } else {
      StepConsistent(s, steps[0]);
      RecoveryStep(s, steps[0]);
      InterruptedSweepsConverge(Apply(s, steps[0]), steps[1..]);
    }
  }

  // ---------- what a seeder that finds its row present can count on ----------

  ghost function SweepSteps(n: nat): seq<Step> {
    if n == 0 then [] else [Handle, Mark] + SweepSteps(n - 1)
  }

  lemma {:induction false} SweepRuns(s: Sys)
    requires Consistent(s) && s.proc.Sweeping? && !s.proc.handled
    ensures Run(s, SweepSteps(|s.proc.todo|)) && Enabled(Final(s, SweepSteps(|s.proc.todo|)), Serve)
    ensures forall step :: step in SweepSteps(|s.proc.todo|) ==> Recovery(step)
    decreases |s.proc.todo|
  {
    var n := |s.proc.todo|;
    if n != 0 {
      assert s.proc.todo[0] in s.proc.todo;
      StepConsistent(s, Handle);
      var s1 := Apply(s, Handle);
      StepConsistent(s1, Mark);
      var s2 := Apply(s1, Mark);
      SweepRuns(s2);
      var rest := SweepSteps(n - 1);
      assert ([Handle, Mark] + rest)[1..] == [Mark] + rest;
      assert ([Mark] + rest)[1..] == rest;
    }
  }

  lemma {:induction false} PendingListed(t: Tables, n: nat) returns (ids: seq<nat>)
    requires n <= |t.log|
    ensures Distinct(ids) && forall id: nat :: id in ids <==> id < n && Pending(t, id)
  {
    if n == 0 {
      ids := [];
    } else {
      ids := PendingListed(t, n - 1);
      if Pending(t, n - 1) {
        ids := ids + [n - 1];
      }
    }
  }

  /** A restart deletes every row a pending entry names. */
  lemma RestartSweeps(s: Sys) returns (steps: seq<Step>)
    requires Consistent(s)
    ensures Run(s, steps) && Final(s, steps).db == Swept(s.db)
  {
    var todo := PendingListed(s.db, |s.db.log|);
    StepConsistent(s, Crash);
    var s1 := Apply(s, Crash);
    StepConsistent(s1, Start(todo));
    var s2 := Apply(s1, Start(todo));
    SweepRuns(s2);
    var rest := SweepSteps(|todo|);
    InterruptedSweepsConverge(s2, rest);
    steps := [Crash, Start(todo)] + rest;
    assert steps[1..] == [Start(todo)] + rest;
    assert steps[1..][1..] == rest;
  }

  /** Some replay in flight is to delete the row. */
  ghost predicate InUse(s: Sys, p: PostId) {
    exists r :: r in Replays(s) && Replays(s)[r].OwnsRow() && Replays(s)[r].post == p
  }

  lemma OwnedRowCanGo(s: Sys, p: PostId) returns (steps: seq<Step>)
    requires InUse(s, p)
    ensures Run(s, steps) && p !in Final(s, steps).db.posts && Served(steps)
  {
    var r :| r in Replays(s) && Replays(s)[r].OwnsRow() && Replays(s)[r].post == p;
    if Replays(s)[r].Inserted? {
      steps := [Log(r), Remove(r)];
      var s1 := Apply(s, Log(r));
      var s2 := Apply(s1, Remove(r));
      assert steps[1..] == [Remove(r)] && steps[1..][1..] == [];
      assert Run(s2, []) && Final(s2, []) == s2;
      assert Run(s1, [Remove(r)]) && Final(s1, [Remove(r)]) == s2;
    } else {
      steps := [Remove(r)];
      var s1 := Apply(s, Remove(r));
      assert steps[1..] == [] && Run(s1, []) && Final(s1, []) == s1;
    }
  }

  /** Steps of one process, from its start to its end. */
  ghost predicate Served(steps: seq<Step>) {
    forall step :: step in steps ==> !step.Crash? && !step.Start?
  }

  /** Only a seeder that finds the row missing makes it its own. */
  lemma NotUsedAfter(s: Sys, step: Step, p: PostId)
    requires Enabled(s, step) && p in s.db.posts && !InUse(s, p)
    ensures !InUse(Apply(s, step), p)
    ensures s.proc.Serving? && !step.Crash? ==> p in Apply(s, step).db.posts
  {
    var s' := Apply(s, step);
    forall q | q in Replays(s') && Replays(s')[q].OwnsRow() ensures Replays(s')[q].post != p {
      if q in Replays(s) && Replays(s)[q].OwnsRow() {
        assert Replays(s)[q].post != p;
      }
    }
  }

  lemma {:induction false} UnusedRowStays(s: Sys, steps: seq<Step>, p: PostId)
    requires s.proc.Serving? && Run(s, steps) && Served(steps) && p in s.db.posts && !InUse(s, p)
    ensures p in Final(s, steps).db.posts
    decreases steps
  {
    if steps != [] {
      assert steps[0] in steps;
      var s' := Apply(s, steps[0]);
      NotUsedAfter(s, steps[0], p);
      UnusedRowStays(s', steps[1..], p);
    }
  }

  /** While the process serves, a row that a seeder finds present is safe from every other replay if and
      only if no replay in flight seeded it. */
  lemma FoundRowStaysWhileServing(s: Sys, p: PostId)
    requires s.proc.Serving? && p in s.db.posts
    ensures (forall steps :: Run(s, steps) && Served(steps) ==> p in Final(s, steps).db.posts) <==> !InUse(s, p)
  {
    if InUse(s, p) {
      var steps := OwnedRowCanGo(s, p);
      assert Run(s, steps) && Served(steps) && p !in Final(s, steps).db.posts;
    } else {
      forall steps | Run(s, steps) && Served(steps) ensures p in Final(s, steps).db.posts {
        UnusedRowStays(s, steps, p);
      }
    }
  }

  /** Nothing will ever delete the row: no pending entry names it and no replay in flight is to delete it. */
  ghost predicate Settled(s: Sys, p: PostId) {
    p in s.db.posts && !Recoverable(s.db, p) && !InUse(s, p)
  }

  lemma SettledStays(s: Sys, step: Step, p: PostId)
    requires Consistent(s) && Enabled(s, step) && Settled(s, p)
    ensures Settled(Apply(s, step), p) && Apply(s, step).db.posts[p] == s.db.posts[p]
  {
    var s' := Apply(s, step);
    match step
    case Handle =>
      assert s.proc.todo[0] in s.proc.todo;
      if s.db.log[s.proc.todo[0]].domain == BLOG_POST && s.db.log[s.proc.todo[0]].resource == p {
        NamesRecoverable(s.db, s.proc.todo[0], p);
      }
      SameLogSameRecoverable(s.db, s'.db, p);
    case Mark => MarkedPending(s.db, s.proc.todo[0]);
    case Log(r) => LoggedNames(s.db, Replays(s)[r].post);
    case Finish(r) => MarkedPending(s.db, Replays(s)[r].id);
    case _ => SameLogSameRecoverable(s.db, s'.db, p);
  }

  lemma {:induction false} SettledRowStays(s: Sys, steps: seq<Step>, p: PostId)
    requires Consistent(s) && Run(s, steps) && Settled(s, p)
    ensures Settled(Final(s, steps), p) && Final(s, steps).db.posts[p] == s.db.posts[p]
    decreases steps
  {
    if steps != [] {
      StepConsistent(s, steps[0]);
      SettledStays(s, steps[0], p);
      SettledRowStays(Apply(s, steps[0]), steps[1..], p);
    }
  }

  /** Over crashes and restarts too, a row survives every run if and only if no pending entry names it and
      no replay in flight is to delete it. */
  lemma FoundRowStaysExactly(s: Sys, p: PostId)
    requires Consistent(s) && p in s.db.posts
    ensures (forall steps :: Run(s, steps) ==> p in Final(s, steps).db.posts) <==> !Recoverable(s.db, p) && !InUse(s, p)
  {
    if Settled(s, p) {
      forall steps | Run(s, steps) ensures p in Final(s, steps).db.posts {
        SettledRowStays(s, steps, p);
      }
    } else if InUse(s, p) {
      var steps := OwnedRowCanGo(s, p);
      assert Run(s, steps) && p !in Final(s, steps).db.posts;
    } else {
      var steps := RestartSweeps(s);
      assert Run(s, steps) && p !in Final(s, steps).db.posts;
    }
  }

  // ---------- one replay at a time ----------

  /** The one caller seeds, replays and tears down without giving way to another replay. */
  ghost predicate OneAtATime(s: Sys, steps: seq<Step>)
    requires Run(s, steps)
    decreases steps
  {
    |Replays(s)| <= 1 && (steps == [] || OneAtATime(Apply(s, steps[0]), steps[1..]))
  }

  ghost predicate FoundPresent(s: Sys) {
    forall r :: r in Replays(s) && Replays(s)[r].Found? ==> Replays(s)[r].post in s.db.posts
  }

  lemma OnlyReplay(m: map<ReplayId, Stage>, r: ReplayId, q: ReplayId)
    requires |m| <= 1 && r in m && q in m
    ensures r == q
  {
    if r != q {
      SubsetIsSmaller({r, q}, m.Keys);
    }
  }

  lemma FoundPresentKept(s: Sys, step: Step)
    requires Enabled(s, step) && |Replays(s)| <= 1 && FoundPresent(s)
    ensures FoundPresent(Apply(s, step))
  {
    var s' := Apply(s, step);
    forall r | r in Replays(s') && Replays(s')[r].Found? ensures Replays(s')[r].post in s'.db.posts {
      if step.Remove? {
        assert r in Replays(s);
        OnlyReplay(Replays(s), r, step.r);
      }
    }
  }

  /** Then a replay that finds its row present keeps it to its end. */
  lemma {:induction false} OneReplayKeepsItsRow(s: Sys, steps: seq<Step>)
    requires Run(s, steps) && OneAtATime(s, steps) && FoundPresent(s)
    ensures FoundPresent(Final(s, steps))
    decreases steps
  {
    if steps != [] {
      FoundPresentKept(s, steps[0]);
      OneReplayKeepsItsRow(Apply(s, steps[0]), steps[1..]);
    }
  }

  /** With two replays of one brick in flight it need not: the second finds the row present, and the
      first takes it away. */
  lemma SecondReplayLosesItsRow(brick: Brick, p: PostId)
    requires PlanFor(brick) == SeedPost(p)
    ensures var s := Sys(Tables(map[], []), Serving(map[]));
            var steps := [Seed(1, brick), Log(1), Seed(2, brick), Remove(1)];
            && Consistent(s) && Covered(s) && Run(s, steps) && CarefulRun(s, steps)
            && 2 in Replays(Final(s, steps)) && Replays(Final(s, steps))[2] == Found(p)
            && p !in Final(s, steps).db.posts
  {
    var s := Sys(Tables(map[], []), Serving(map[]));
    var s1 := Apply(s, Seed(1, brick));
    var s2 := Apply(s1, Log(1));
    var s3 := Apply(s2, Seed(2, brick));
    var s4 := Apply(s3, Remove(1));
    var steps := [Seed(1, brick), Log(1), Seed(2, brick), Remove(1)];
    assert steps[1..][1..] == steps[2..] && steps[2..][1..] == steps[3..] && steps[3..][1..] == [];
    assert Run(s4, []) && CarefulRun(s4, []) && Final(s4, []) == s4;
    assert Run(s3, steps[3..]) && CarefulRun(s3, steps[3..]) && Final(s3, steps[3..]) == s4;
    assert Run(s2, steps[2..]) && CarefulRun(s2, steps[2..]) && Final(s2, steps[2..]) == s4;
  }

  // ---------- what careless crashes cost ----------

  /** The seeded rows that nothing will ever delete. */
  ghost function Stuck(s: Sys): set<PostId> {
    set p | p in s.db.posts && s.db.posts[p] == Seeded && Settled(s, p)
  }

  /** Another pending entry than the one about to be marked names the post. */
  ghost predicate NamedElsewhere(t: Tables, p: PostId, id: nat) {
    exists j: nat :: j != id && Names(t, j, p)
  }

  /** The rows that one step loses: a crash, those inserted and not yet logged that no older pending entry
      names; an exception at that point, the replay's own; and the end of a replay, its post if a later
      replay has seeded it again and was cut off before its log write. */
  ghost predicate Loses(s: Sys, step: Step, p: PostId) {
    match step
    case Crash => Unlogged(s, p) && !Recoverable(s.db, p)
    case Abandon(r) => r in Replays(s) && Replays(s)[r] == Inserted(p) && !Recoverable(s.db, p)
    case Finish(r) =>
      && r in Replays(s) && Replays(s)[r].Deleted? && Replays(s)[r].post == p
      && p in s.db.posts && !InUse(s, p) && !NamedElsewhere(s.db, p, Replays(s)[r].id)
    case _ => false
  }

  ghost function Lost(s: Sys, step: Step): set<PostId> {
    set p | p in s.db.posts && Loses(s, step, p)
  }

  lemma LostAreStuck(s: Sys, step: Step, p: PostId)
    requires Consistent(s) && Enabled(s, step) && p in Lost(s, step)
    ensures p in Stuck(Apply(s, step))
  {
    var s' := Apply(s, step);
    match step
    case Finish(r) =>
      MarkedPending(s.db, Replays(s)[r].id);
      NamesRecoverable(s.db, Replays(s)[r].id, p);
    case _ => SameLogSameRecoverable(s.db, s'.db, p);
  }

  lemma StuckWereLost(s: Sys, step: Step, p: PostId)
    requires Consistent(s) && Enabled(s, step) && p in Stuck(Apply(s, step)) && p !in Stuck(s)
    ensures p in Lost(s, step)
  {
    var s' := Apply(s, step);
    match step
    case Log(r) =>
      LoggedNames(s.db, Replays(s)[r].post);
      if InUse(s, p) {
        LogKeepsUse(s, r, p);
      }
    case Mark =>
      MarkedPending(s.db, s.proc.todo[0]);
      NotNamedLeft(s.db, s'.db, s.proc.todo[0], p);
    case Finish(r) =>
      FinishLoses(s, r, p);
    case _ =>
      SameLogSameRecoverable(s.db, s'.db, p);
      NewRowIsUsed(s, step, p);
      UseEndsLoggedOrLost(s, step, p);
  }

  lemma NewRowIsUsed(s: Sys, step: Step, p: PostId)
    requires Enabled(s, step)
    ensures var s' := Apply(s, step);
            p !in s.db.posts && p in s'.db.posts && s'.db.posts[p] == Seeded ==> InUse(s', p)
  {
    var s' := Apply(s, step);
    if step.Seed? && p !in s.db.posts && p in s'.db.posts {
      assert Replays(s')[step.r] == Inserted(p);
    }
  }

  lemma LoggedAreNamed(s: Sys)
    requires Consistent(s)
    ensures forall q :: q in Replays(s) && Replays(s)[q].Logged? ==> Recoverable(s.db, Replays(s)[q].post)
  {
    forall q | q in Replays(s) && Replays(s)[q].Logged? ensures Recoverable(s.db, Replays(s)[q].post) {
      NamesRecoverable(s.db, Replays(s)[q].id, Replays(s)[q].post);
    }
  }

  /** A row in use, that no entry names, goes out of use only by a crash or its own replay's exception. */
  lemma UseEndsLoggedOrLost(s: Sys, step: Step, p: PostId)
    requires Consistent(s) && Enabled(s, step) && !step.Log? && !step.Finish? && !Recoverable(s.db, p)
    ensures InUse(s, p) ==> InUse(Apply(s, step), p) || Loses(s, step, p)
  {
    LoggedAreNamed(s);
    if InUse(s, p) {
      var q :| q in Replays(s) && Replays(s)[q].OwnsRow() && Replays(s)[q].post == p;
      if !step.Crash? && step != Abandon(q) {
        assert Replays(Apply(s, step))[q] == Replays(s)[q];
      }
    }
  }

  lemma LogKeepsUse(s: Sys, r: ReplayId, p: PostId)
    requires Enabled(s, Log(r)) && InUse(s, p)
    ensures InUse(Apply(s, Log(r)), p)
  {
    var q :| q in Replays(s) && Replays(s)[q].OwnsRow() && Replays(s)[q].post == p;
    assert Replays(Apply(s, Log(r)))[q].OwnsRow() && Replays(Apply(s, Log(r)))[q].post == p;
  }

  lemma FinishKeepsUse(s: Sys, r: ReplayId, p: PostId)
    requires Enabled(s, Finish(r)) && InUse(s, p)
    ensures InUse(Apply(s, Finish(r)), p)
  {
    var q :| q in Replays(s) && Replays(s)[q].OwnsRow() && Replays(s)[q].post == p;
    assert Replays(Apply(s, Finish(r)))[q] == Replays(s)[q];
  }

  lemma FinishLoses(s: Sys, r: ReplayId, p: PostId)
    requires Consistent(s) && Enabled(s, Finish(r)) && p in Stuck(Apply(s, Finish(r))) && p !in Stuck(s)
    ensures Loses(s, Finish(r), p)
  {
    var s', done := Apply(s, Finish(r)), Replays(s)[r].id;
    MarkedPending(s.db, done);
    if InUse(s, p) {
      FinishKeepsUse(s, r, p);
    }
    NotNamedLeft(s.db, s'.db, done, p);
    var id: nat :| id < |s.db.log| && Names(s.db, id, p);
    assert id == done;
  }

  lemma NotNamedLeft(t: Tables, t': Tables, done: nat, p: PostId)
    requires t' == AfterMark(t, done) && !Recoverable(t', p)
    ensures forall j: nat :: Names(t, j, p) ==> j == done
  {
    forall j: nat | Names(t, j, p) ensures j == done {
      if j != done {
        assert Names(t', j, p);
        NamesRecoverable(t', j, p);
      }
    }
  }

  /** Exactly what a step costs. */
  lemma StepLosesExactly(s: Sys, step: Step)
    requires Consistent(s) && Enabled(s, step)
    ensures Stuck(Apply(s, step)) == Stuck(s) + Lost(s, step)
  {
    var s' := Apply(s, step);
    forall p | p in Stuck(s) ensures p in Stuck(s') {
      SettledStays(s, step, p);
    }
    forall p | p in Lost(s, step) ensures p in Stuck(s') {
      LostAreStuck(s, step, p);
    }
    forall p | p in Stuck(s') ensures p in Stuck(s) + Lost(s, step) {
      if p !in Stuck(s) {
        StuckWereLost(s, step, p);
      }
    }
  }

  ghost function LostInRun(s: Sys, steps: seq<Step>): set<PostId>
    requires Run(s, steps)
    decreases steps
  {
    if steps == [] then {} else Lost(s, steps[0]) + LostInRun(Apply(s, steps[0]), steps[1..])
  }

  lemma {:induction false} RunLosesExactly(s: Sys, steps: seq<Step>)
    requires Consistent(s) && Run(s, steps)
    ensures Stuck(Final(s, steps)) == Stuck(s) + LostInRun(s, steps)
    decreases steps
  {
    if steps != [] {
      StepConsistent(s, steps[0]);
      StepLosesExactly(s, steps[0]);
      RunLosesExactly(Apply(s, steps[0]), steps[1..]);
    }
  }

  /** The price of any run, with as many careless crashes as one likes: whenever a startup sweep has ended,
      the seeded rows left are exactly those stuck at the start and those lost on the way. */
  lemma SweepLeavesTheLost(s: Sys, steps: seq<Step>)
    requires Consistent(s) && Run(s, steps) && Enabled(Final(s, steps), Serve)
    ensures (set p | p in Final(s, steps).db.posts && Final(s, steps).db.posts[p] == Seeded)
            == Stuck(s) + LostInRun(s, steps)
  {
    RunConsistent(s, steps);
    RunLosesExactly(s, steps);
    var end := Final(s, steps);
    forall p | p in end.db.posts ensures Settled(end, p) {
      assert forall id: nat :: !Pending(end.db, id);
    }
  }

  /** And there is such a run: a process that dies between the seeding and the log write. */
  lemma CrashBeforeLogLeaks(brick: Brick, p: PostId)
    requires PlanFor(brick) == SeedPost(p)
    ensures var s, steps := Sys(Tables(map[], []), Serving(map[])), [Seed(1, brick), Crash];
            Consistent(s) && Run(s, steps) && p in LostInRun(s, steps) && p in Stuck(Final(s, steps))
  {
    var s, steps := Sys(Tables(map[], []), Serving(map[])), [Seed(1, brick), Crash];
    var s1 := Apply(s, Seed(1, brick));
    var s2 := Apply(s1, Crash);
    assert steps[1..] == [Crash] && steps[1..][1..] == [];
    assert Run(s2, []) && Final(s2, []) == s2;
    assert Run(s1, [Crash]) && Final(s1, [Crash]) == s2;
    assert Replays(s1)[1] == Inserted(p);
    assert p in Lost(s1, Crash);
    RunLosesExactly(s, steps);
    assert LostInRun(s1, steps[1..]) == Lost(s1, Crash) + LostInRun(s2, []);
  }
}
