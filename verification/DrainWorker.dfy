/** `TelemetryDrainWorker.run`, shown to be a run of the drain protocol that ends with everything handled.
    Producers act between the worker's polls. */
module DrainWorker {
  import opened Options
  import opened Json
  import opened Telemetry
  import Validation
  import opened EventQueue
  import opened Drain
  import opened Collections

  /** The events producers put during a run, in order. */
  ghost function Puts(steps: seq<Step>): seq<Tagged> {
    if steps == [] then []
    else PutOf(steps[0]) + Puts(steps[1..])
  }

  ghost function PutOf(step: Step): seq<Tagged> {
    if step.Put? then [Tagged(step.queue, step.event)] else []
  }

  ghost function Flattened(arrivals: seq<seq<Tagged>>): seq<Tagged> {
    if arrivals == [] then [] else Flattened(arrivals[..|arrivals| - 1]) + arrivals[|arrivals| - 1]
  }

  lemma {:induction false} PutsAppend(steps: seq<Step>, more: seq<Step>)
    ensures Puts(steps + more) == Puts(steps) + Puts(more)
  {
    if steps == [] {
      assert steps + more == more;
    } else {
      PutsAppend(steps[1..], more);
      assert (steps + more)[0] == steps[0] && (steps + more)[1..] == steps[1..] + more;
      Associative(PutOf(steps[0]), Puts(steps[1..]), Puts(more));
    }
  }

  lemma {:induction false} RunAppend(cfg: Config, s: Sys, steps: seq<Step>, more: seq<Step>)
    requires Run(cfg, s, steps) && Run(cfg, Final(cfg, s, steps), more)
    ensures Run(cfg, s, steps + more) && Final(cfg, s, steps + more) == Final(cfg, Final(cfg, s, steps), more)
    ensures Puts(steps + more) == Puts(steps) + Puts(more)
    decreases |steps|
  {
    PutsAppend(steps, more);
    if steps == [] {
      assert steps + more == more;
    } else {
      RunAppend(cfg, Apply(cfg, s, steps[0]), steps[1..], more);
      assert (steps + more)[1..] == steps[1..] + more;
    }
  }

  lemma RunOne(cfg: Config, s: Sys, steps: seq<Step>, step: Step)
    requires Run(cfg, s, steps) && Enabled(cfg, Final(cfg, s, steps), step)
    ensures Run(cfg, s, steps + [step]) && Final(cfg, s, steps + [step]) == Apply(cfg, Final(cfg, s, steps), step)
    ensures Puts(steps + [step]) == Puts(steps) + (if step.Put? then [Tagged(step.queue, step.event)] else [])
  {
    assert [step][1..] == [];
    RunAppend(cfg, s, steps, [step]);
  }

  lemma {:induction false} NoPutsWhenEmpty(steps: seq<Step>)
    requires Puts(steps) == []
    ensures NoPuts(steps)
  {
    if steps != [] {
      NoPutsWhenEmpty(steps[1..]);
      forall i | 0 <= i < |steps| ensures !steps[i].Put? {
        if i > 0 {
          assert steps[i] == steps[1..][i - 1];
        }
      }
    }
  }

  /** How many handled events had the outcome. */
  function CountOf(handled: seq<Handled>, outcome: Outcome): nat {
    if handled == [] then 0
    else CountOf(handled[..|handled| - 1], outcome) + (if handled[|handled| - 1].outcome == outcome then 1 else 0)
  }

  /** The event is at the head of the i-th channel's queue, and all queues before that are empty. */
  ghost predicate HeadOfFirst(queues: Queues, channels: seq<string>, i: nat, e: Event)
    requires i < |channels|
  {
    && channels[i] in queues && queues[channels[i]] != [] && queues[channels[i]][0] == e
    && forall j :: 0 <= j < i ==> channels[j] in queues && queues[channels[j]] == []
  }

  /** When the batch was last flushed, or the start. */
  function FlushedLast(flushes: seq<bool>, times: seq<real>, start: real): real
    requires |flushes| <= |times|
  {
    if flushes == [] then start
    else
      var n := |flushes| - 1;
      if flushes[n] then times[n] else FlushedLast(flushes[..n], times, start)
  }

  /** The size of the batch that the polls so far leave. */
  function Left(flushes: seq<bool>, sizes: seq<nat>): nat
    requires |flushes| == |sizes|
  {
    if flushes == [] || flushes[|flushes| - 1] then 0 else sizes[|sizes| - 1]
  }

  /** Each poll adds at most one event to what the last one left, and flushes exactly when the batch is then
      full, or not empty and its time is up. */
  ghost predicate OnTime(flushes: seq<bool>, sizes: seq<nat>, times: seq<real>, start: real,
                         batchSize: int, batchWindow: real)
    decreases |flushes|
  {
    && |flushes| == |sizes| <= |times|
    && (flushes == [] ||
        var n := |flushes| - 1;
        && OnTime(flushes[..n], sizes[..n], times, start, batchSize, batchWindow)
        && Left(flushes[..n], sizes[..n]) <= sizes[n] <= Left(flushes[..n], sizes[..n]) + 1
        && (flushes[n] <==>
              sizes[n] > 0
              && (sizes[n] >= batchSize || times[n] - FlushedLast(flushes[..n], times, start) >= batchWindow)))
  }

  lemma OneMorePoll(flushes: seq<bool>, sizes: seq<nat>, times: seq<real>, start: real,
                    batchSize: int, batchWindow: real, flushed: bool, size: nat)
    requires OnTime(flushes, sizes, times, start, batchSize, batchWindow) && |flushes| < |times|
    requires Left(flushes, sizes) <= size <= Left(flushes, sizes) + 1
    requires flushed <==> size > 0 && (size >= batchSize
                          || times[|flushes|] - FlushedLast(flushes, times, start) >= batchWindow)
    ensures OnTime(flushes + [flushed], sizes + [size], times, start, batchSize, batchWindow)
    ensures Left(flushes + [flushed], sizes + [size]) == if flushed then 0 else size
    ensures FlushedLast(flushes + [flushed], times, start)
         == if flushed then times[|flushes|] else FlushedLast(flushes, times, start)
  {
    assert (flushes + [flushed])[..|flushes|] == flushes && (sizes + [size])[..|sizes|] == sizes;
  }

  class TelemetryDrainWorker {
    const cfg: Config
    const batchSize: int
    const batchWindow: real
    const repository: EventQueueRepository
    const db: TelemetryDb
    var writeFailures: nat
    var skippedNoTraceContext: nat
    ghost var handled: seq<Handled>

    constructor (repository: EventQueueRepository, db: TelemetryDb, channels: seq<string>,
                 entryPoint: Event -> string, appBox: Event -> Option<string>,
                 batchSize: int := 50, batchWindow: real := 0.5)
      ensures this.repository == repository && this.db == db
      ensures cfg == Config(channels, repository.maxsize, entryPoint, appBox)
      ensures this.batchSize == batchSize && this.batchWindow == batchWindow
      ensures repository.Valid() && (forall c :: c in channels ==> c in repository.channelNames) ==> Valid()
      ensures handled == [] && writeFailures == 0 && skippedNoTraceContext == 0
    {
      this.repository, this.db := repository, db;
      cfg := Config(channels, repository.maxsize, entryPoint, appBox);
      this.batchSize, this.batchWindow := batchSize, batchWindow;
      writeFailures, skippedNoTraceContext, handled := 0, 0, [];
    }

    ghost predicate Valid()
      reads this, repository
    {
      && repository.Valid() && cfg.maxsize == repository.maxsize
      && (forall c :: c in cfg.channels ==> c in repository.channelNames)
      && writeFailures == CountOf(handled, Failed)
      && skippedNoTraceContext == CountOf(handled, Skipped)
    }

    ghost function View(phase: Phase, batch: seq<Tagged>): Sys
      reads this, repository, db
    {
      Sys(repository.queues, repository.dropped, phase, batch, handled, db.Contents())
    }

    /** Handles the first event of the batch. */
    method IngestOne(item: Tagged, ghost phase: Phase, ghost batch: seq<Tagged>)
      requires Valid() && (phase.Flushing? || phase.LastFlush?) && batch != [] && batch[0] == item
      modifies this, db
      ensures Valid()
      ensures repository.queues == old(repository.queues) && repository.dropped == old(repository.dropped)
      ensures View(phase, batch[1..]) == Apply(cfg, old(View(phase, batch)), Handle)
      ensures var e := item.event;
              var inTrace := e.traceId.Some? && e.spanId.Some?;
              && skippedNoTraceContext == old(skippedNoTraceContext) + (if inTrace then 0 else 1)
              && writeFailures == old(writeFailures) + (if inTrace && !e.payload.JObject? then 1 else 0)
    {
      var e := item.event;
      GateRejectsExactly(cfg, e);
      ghost var before := handled;
      handled := handled + [Handled(item, OutcomeOf(cfg, e))];
      assert handled[..|handled| - 1] == before;
      if !HasTraceContext(e) {
        skippedNoTraceContext := skippedNoTraceContext + 1;
        return;
      }
      var checked := Validation.Parse(INGEST_SPAN_REQUEST, JObject(Raw(cfg, e)));
      if checked.Ok? {
        var created := db.IngestSpan(RequestOf(cfg, e));
      } else {
        writeFailures := writeFailures + 1;
      }
    }

    method Flush(batch: seq<Tagged>, ghost phase: Phase) returns (ghost steps: seq<Step>)
      requires Valid() && (phase.Flushing? || phase.LastFlush?)
      modifies this, db
      ensures Valid()
      ensures repository.queues == old(repository.queues) && repository.dropped == old(repository.dropped)
      ensures Run(cfg, old(View(phase, batch)), steps) && Puts(steps) == []
      ensures Final(cfg, old(View(phase, batch)), steps) == View(if phase.Flushing? then Collecting else Done, [])
    {
      steps := [];
      ghost var s := View(phase, batch);
      for i := 0 to |batch|
        invariant Valid()
        invariant repository.queues == old(repository.queues) && repository.dropped == old(repository.dropped)
        invariant Run(cfg, s, steps) && Puts(steps) == [] && Final(cfg, s, steps) == View(phase, batch[i..])
      {
        IngestOne(batch[i], phase, batch[i..]);
        Rest(batch, i);
        RunOne(cfg, s, steps, Handle);
        steps := steps + [Handle];
      }
      RunOne(cfg, s, steps, EndFlush);
      steps := steps + [EndFlush];
    }

    method Accept(a: Tagged, ghost batch: seq<Tagged>)
      requires Valid() && a.queue in repository.channelNames
      modifies repository
      ensures Valid() && handled == old(handled)
      ensures Enabled(cfg, old(View(Collecting, batch)), Put(a.queue, a.event))
      ensures View(Collecting, batch) == Apply(cfg, old(View(Collecting, batch)), Put(a.queue, a.event))
    {
      var known := repository.Put(a.queue, a.event);
    }

    /** Producers put events while the worker is between two polls. */
    method Produce(arrivals: seq<Tagged>, ghost batch: seq<Tagged>) returns (ghost steps: seq<Step>)
      requires Valid() && forall a :: a in arrivals ==> a.queue in repository.channelNames
      modifies repository
      ensures Valid() && handled == old(handled)
      ensures Run(cfg, old(View(Collecting, batch)), steps) && Puts(steps) == arrivals
      ensures Final(cfg, old(View(Collecting, batch)), steps) == View(Collecting, batch)
    {
      steps := [];
      ghost var s := View(Collecting, batch);
      for i := 0 to |arrivals|
        invariant Valid()
        invariant Run(cfg, s, steps) && Puts(steps) == arrivals[..i] && Final(cfg, s, steps) == View(Collecting, batch)
      {
        var a := arrivals[i];
        assert a in arrivals;
        PrefixStep([], arrivals, i);
        Accept(a, batch);
        RunOne(cfg, s, steps, Put(a.queue, a.event));
        steps := steps + [Put(a.queue, a.event)];
      }
    }

    /** The body of the main loop: poll once, then flush when the batch is full or old enough. */
    method PollOnce(batch: seq<Tagged>, elapsed: real)
      returns (batch': seq<Tagged>, flushed: bool, ghost steps: seq<Step>, ghost taken: seq<Tagged>)
      requires Valid()
      modifies this, repository, db
      ensures Valid()
      ensures Run(cfg, old(View(Collecting, batch)), steps) && Puts(steps) == []
      ensures Final(cfg, old(View(Collecting, batch)), steps) == View(Collecting, batch')
      ensures taken == batch ==> forall c :: c in cfg.channels ==> old(repository.queues)[c] == []
      ensures taken != batch ==>
                exists i, e :: 0 <= i < |cfg.channels| && taken == batch + [Tagged(cfg.channels[i], e)]
                  && HeadOfFirst(old(repository.queues), cfg.channels, i, e)
      ensures flushed <==> taken != [] && (|taken| >= batchSize || elapsed >= batchWindow)
      ensures batch' == if flushed then [] else taken
    {
      steps, batch' := [], batch;
      ghost var s := View(Collecting, batch);
      var found := repository.GetAny(cfg.channels);
      if found.Some? {
        batch' := batch' + [found.value];
        RunOne(cfg, s, steps, Poll(found.value.queue));
        steps := steps + [Poll(found.value.queue)];
      }
      taken := batch';
      flushed := batch' != [] && (|batch'| >= batchSize || elapsed >= batchWindow);
      if flushed {
        RunOne(cfg, s, steps, StartFlush);
        steps := steps + [StartFlush];
        ghost var more := Flush(batch', Flushing);
        RunAppend(cfg, s, steps, more);
        steps, batch' := steps + more, [];
      }
    }

    /** One pass of the shutdown loop finds every channel empty up to the first that is not. */
    lemma ScanTo(s: Sys, i: nat) returns (steps: seq<Step>)
      requires s.phase == Draining(0) && i <= |cfg.channels| && Wired(cfg, s)
      requires forall j :: 0 <= j < i ==> s.queues[cfg.channels[j]] == []
      ensures Run(cfg, s, steps) && Puts(steps) == [] && Final(cfg, s, steps) == s.(phase := Draining(i))
    {
      steps := [];
      for j := 0 to i
        invariant Run(cfg, s, steps) && Puts(steps) == [] && Final(cfg, s, steps) == s.(phase := Draining(j))
      {
        RunOne(cfg, s, steps, Scan);
        steps := steps + [Scan];
      }
    }

    /** One turn of the shutdown loop. */
    method TakeOne(batch: seq<Tagged>) returns (batch': seq<Tagged>, more: bool, ghost steps: seq<Step>)
      requires Valid()
      modifies repository
      ensures Valid() && handled == old(handled)
      ensures Run(cfg, old(View(Draining(0), batch)), steps) && Puts(steps) == []
      ensures Final(cfg, old(View(Draining(0), batch)), steps) == View(if more then Draining(0) else LastFlush, batch')
      ensures more ==> Remaining(repository.queues, cfg.channels) < Remaining(old(repository.queues), cfg.channels)
    {
      ghost var s := View(Draining(0), batch);
      var found := repository.GetAny(cfg.channels);
      more := found.Some?;
      ghost var i := |cfg.channels|;
      batch' := batch;
      if more {
        i :| 0 <= i < |cfg.channels| && cfg.channels[i] == found.value.queue
             && forall j :: 0 <= j < i ==> cfg.channels[j] in s.queues && s.queues[cfg.channels[j]] == [];
        batch' := batch' + [found.value];
        RemainingDrops(s.queues, cfg.channels, found.value.queue);
      }
      steps := ScanTo(s, i);
      RunOne(cfg, s, steps, Scan);
      steps := steps + [Scan];
    }

    /** The shutdown loop: take until a whole pass finds nothing, then flush what was taken. */
    method DrainAndFlush(batch: seq<Tagged>) returns (ghost steps: seq<Step>)
      requires Valid()
      modifies this, repository, db
      ensures Valid()
      ensures Run(cfg, old(View(Draining(0), batch)), steps) && Puts(steps) == []
      ensures Final(cfg, old(View(Draining(0), batch)), steps) == View(Done, [])
    {
      steps := [];
      ghost var s := View(Draining(0), batch);
      var taken, more := batch, true;
      while more
        invariant Valid()
        invariant Run(cfg, s, steps) && Puts(steps) == []
        invariant Final(cfg, s, steps) == View(if more then Draining(0) else LastFlush, taken)
        decreases more, Remaining(repository.queues, cfg.channels)
      {
        ghost var pass;
        taken, more, pass := TakeOne(taken);
        RunAppend(cfg, s, steps, pass);
        steps := steps + pass;
      }
      ghost var last := Flush(taken, LastFlush);
      RunAppend(cfg, s, steps, last);
      steps := steps + last;
    }

    /** One turn: what arrives before the poll, and the poll. */
    method Turn(arrivals: seq<Tagged>, batch: seq<Tagged>, elapsed: real)
      returns (batch': seq<Tagged>, flushed: bool, ghost steps: seq<Step>, ghost size: nat)
      requires Valid() && forall a :: a in arrivals ==> a.queue in repository.channelNames
      modifies this, repository, db
      ensures Valid()
      ensures Run(cfg, old(View(Collecting, batch)), steps) && Puts(steps) == arrivals
      ensures Final(cfg, old(View(Collecting, batch)), steps) == View(Collecting, batch')
      ensures |batch| <= size <= |batch| + 1 && |batch'| == if flushed then 0 else size
      ensures flushed <==> size > 0 && (size >= batchSize || elapsed >= batchWindow)
    {
      ghost var s := View(Collecting, batch);
      steps := Produce(arrivals, batch);
      ghost var more, taken;
      batch', flushed, more, taken := PollOnce(batch, elapsed);
      RunAppend(cfg, s, steps, more);
      steps, size := steps + more, |taken|;
    }

    /** The main loop: `arrivals[i]` is put before the i-th poll, `times[i]` is the clock after it. */
    method Collect(arrivals: seq<seq<Tagged>>, start: real, times: seq<real>)
      returns (batch: seq<Tagged>, ghost steps: seq<Step>, ghost flushes: seq<bool>, ghost sizes: seq<nat>)
      requires Valid() && |times| == |arrivals|
      requires forall i, a :: 0 <= i < |arrivals| && a in arrivals[i] ==> a.queue in repository.channelNames
      modifies this, repository, db
      ensures Valid()
      ensures Run(cfg, old(View(Collecting, [])), steps) && Puts(steps) == Flattened(arrivals)
      ensures Final(cfg, old(View(Collecting, [])), steps) == View(Collecting, batch)
      ensures |flushes| == |times| && OnTime(flushes, sizes, times, start, batchSize, batchWindow)
    {
      steps, flushes, sizes := [], [], [];
      ghost var s := View(Collecting, []);
      var lastFlush := start;
      batch := [];
      for i := 0 to |arrivals|
        invariant Valid()
        invariant Run(cfg, s, steps) && Puts(steps) == Flattened(arrivals[..i])
        invariant Final(cfg, s, steps) == View(Collecting, batch)
        invariant |flushes| == i && OnTime(flushes, sizes, times, start, batchSize, batchWindow)
        invariant |batch| == Left(flushes, sizes) && lastFlush == FlushedLast(flushes, times, start)
      {
        assert arrivals[..i + 1][..i] == arrivals[..i];
        var flushed;
        ghost var more, size;
        batch, flushed, more, size := Turn(arrivals[i], batch, times[i] - lastFlush);
        OneMorePoll(flushes, sizes, times, start, batchSize, batchWindow, flushed, size);
        flushes, sizes := flushes + [flushed], sizes + [size];
        RunAppend(cfg, s, steps, more);
        steps := steps + more;
        if flushed {
          lastFlush := times[i];
        }
      }
      assert arrivals[..|arrivals|] == arrivals;
    }

    /** The thread's whole life: the main loop, until `stop` is seen after the last poll, and the shutdown.
        Batches are flushed on time, and everything accepted has been handled in the end. */
    method RunThread(arrivals: seq<seq<Tagged>>, start: real, times: seq<real>)
      returns (ghost before: seq<Step>, ghost after: seq<Step>, ghost flushes: seq<bool>, ghost sizes: seq<nat>)
      requires Valid() && handled == [] && |times| == |arrivals|
      requires forall i, a :: 0 <= i < |arrivals| && a in arrivals[i] ==> a.queue in repository.channelNames
      modifies this, repository, db
      ensures Valid()
      ensures Run(cfg, old(View(Collecting, [])), before) && Puts(before) == Flattened(arrivals)
      ensures |flushes| == |times| && OnTime(flushes, sizes, times, start, batchSize, batchWindow)
      ensures var s, end := old(View(Collecting, [])), View(Done, []);
              forall q :: q in cfg.channels ==>
                repository.queues[q] == [] && Through(Items(handled), q) == s.queues[q] + Accepted(cfg, s, before, q)
    {
      ghost var s := View(Collecting, []);
      var batch;
      batch, before, flushes, sizes := Collect(arrivals, start, times);
      RunOne(cfg, s, before, Stop);
      before := before + [Stop];
      after := DrainAndFlush(batch);
      NoPutsWhenEmpty(after);
      forall q | q in cfg.channels
        ensures repository.queues[q] == [] && Through(Items(handled), q) == s.queues[q] + Accepted(cfg, s, before, q)
      {
        StoppedWorkerHandledEverything(cfg, s, before, after, q);
      }
    }
  }

  /** The number of events left in the drained queues. */
  ghost function Remaining(queues: Queues, channels: seq<string>): nat {
    if channels == [] then 0
    else
      var q := channels[|channels| - 1];
      Remaining(queues, channels[..|channels| - 1]) + (if q in queues then |queues[q]| else 0)
  }

  lemma {:induction false} RemainingDrops(queues: Queues, channels: seq<string>, q: string)
    requires q in channels && q in queues && queues[q] != []
    ensures Remaining(queues[q := queues[q][1..]], channels) < Remaining(queues, channels)
  {
    var n := |channels| - 1;
    if q in channels[..n] {
      RemainingDrops(queues, channels[..n], q);
    } else {
      assert channels[n] == q;
      RemainingSame(queues, channels[..n], q);
    }
  }

  lemma {:induction false} RemainingSame(queues: Queues, channels: seq<string>, q: string)
    requires q !in channels && q in queues && queues[q] != []
    ensures Remaining(queues[q := queues[q][1..]], channels) == Remaining(queues, channels)
  {
    if channels != [] {
      RemainingSame(queues, channels[..|channels| - 1], q);
    }
  }
}
