/** `nanobar_api/access.py`: token buckets kept in an `OrderedDict` that evicts its first entry once it
    holds more than `max_tracked_clients`. Times and token counts are reals. */
module RateLimit {
  import opened Collections
  import opened Options

  datatype Bucket = Bucket(tokens: real, last: real)
  datatype Entry = Entry(key: string, bucket: Bucket)

  /** One `consume` call, with the value `time.monotonic()` returned in it. */
  datatype Call = Call(key: string, capacity: real, rate: real, now: real)

  function Min(x: real, y: real): real {
    if x <= y then x else y
  }

  function Refilled(b: Bucket, c: Call): real {
    Min(c.capacity, b.tokens + (c.now - b.last) * c.rate)
  }

  function Allows(b: Bucket, c: Call): bool {
    Refilled(b, c) >= 1.0
  }

  function Served(b: Bucket, c: Call): Bucket {
    Bucket(if Allows(b, c) then Refilled(b, c) - 1.0 else Refilled(b, c), c.now)
  }

  /** The bucket a key starts from when it is not tracked. */
  function Fresh(c: Call): Bucket {
    Bucket(c.capacity, c.now)
  }

  // ---------- the ordered dictionary ----------

  function Find(entries: seq<Entry>, key: string): Option<Bucket> {
    if entries == [] then None
    else if entries[|entries| - 1].key == key then Some(entries[|entries| - 1].bucket)
    else Find(entries[..|entries| - 1], key)
  }

  function Without(entries: seq<Entry>, key: string): seq<Entry> {
    if entries == [] then []
    else
      var n := |entries| - 1;
      Without(entries[..n], key) + (if entries[n].key == key then [] else [entries[n]])
  }

  /** Drops the first entry of a dictionary that has outgrown its bound. */
  function Bounded(entries: seq<Entry>, maxTracked: int): seq<Entry> {
    if entries != [] && |entries| > maxTracked then entries[1..] else entries
  }

  function Before(entries: seq<Entry>, c: Call): Bucket {
    var found := Find(entries, c.key);
    if found.Some? then found.value else Fresh(c)
  }

  function LruStep(entries: seq<Entry>, maxTracked: int, c: Call): seq<Entry> {
    Bounded(Without(entries, c.key) + [Entry(c.key, Served(Before(entries, c), c))], maxTracked)
  }

  /** What a call does to the bucket it finds: refilled for the time since, up to the capacity, it admits the
      request if it holds at least one token, and then one is taken. */
  predicate Charged(b: Bucket, capacity: real, rate: real, now: real, allowed: bool, after: Bucket) {
    var grown := b.tokens + (now - b.last) * rate;
    var level := if grown < capacity then grown else capacity;
    && (allowed <==> level >= 1.0) && after.last == now
    && after.tokens == if allowed then level - 1.0 else level
  }

  /** The dictionary's entry for the key. */
  ghost predicate Tracks(entries: seq<Entry>, key: string, b: Bucket) {
    exists i :: LastOf(entries, key, i) && entries[i].bucket == b
  }

  ghost predicate LastOf(entries: seq<Entry>, key: string, i: int) {
    0 <= i < |entries| && entries[i].key == key && forall j :: i < j < |entries| ==> entries[j].key != key
  }

  ghost predicate Untracked(entries: seq<Entry>, key: string) {
    forall i :: 0 <= i < |entries| ==> entries[i].key != key
  }

  lemma {:induction false} FindExactly(entries: seq<Entry>, key: string)
    ensures Find(entries, key).None? <==> Untracked(entries, key)
    ensures forall b :: Tracks(entries, key, b) <==> Find(entries, key) == Some(b)
  {
    if entries != [] {
      var n := |entries| - 1;
      var front, last := entries[..n], entries[n];
      FindExactly(front, key);
      assert forall i :: 0 <= i < n ==> front[i] == entries[i];
      forall b ensures Tracks(entries, key, b) <==> Find(entries, key) == Some(b) {
        if last.key != key {
          TracksInFront(entries, key, b);
        } else {
          assert LastOf(entries, key, n) && forall i :: LastOf(entries, key, i) ==> i == n;
        }
      }
    }
  }

  lemma TracksInFront(entries: seq<Entry>, key: string, b: Bucket)
    requires entries != [] && entries[|entries| - 1].key != key
    ensures Tracks(entries[..|entries| - 1], key, b) <==> Tracks(entries, key, b)
  {
    var front := entries[..|entries| - 1];
    forall i ensures LastOf(front, key, i) <==> LastOf(entries, key, i) {
      assert forall j :: 0 <= j < |front| ==> front[j] == entries[j];
    }
  }

  lemma ServedIsCharged(b: Bucket, c: Call)
    ensures Charged(b, c.capacity, c.rate, c.now, Allows(b, c), Served(b, c))
  {
  }

  /** The call charges the bucket tracked for its key, or a full one if there is none. */
  ghost predicate Charges(entries: seq<Entry>, c: Call, allowed: bool, after: Bucket) {
    && (Untracked(entries, c.key) ==> Charged(Bucket(c.capacity, c.now), c.capacity, c.rate, c.now, allowed, after))
    && forall b :: Tracks(entries, c.key, b) ==> Charged(b, c.capacity, c.rate, c.now, allowed, after)
  }

  predicate EndsWith(entries: seq<Entry>, e: Entry) {
    entries != [] && entries[|entries| - 1] == e
  }

  lemma StepCharges(entries: seq<Entry>, maxTracked: int, c: Call)
    ensures var before := Before(entries, c);
            && Charges(entries, c, Allows(before, c), Served(before, c))
            && (maxTracked >= 1 ==> EndsWith(LruStep(entries, maxTracked, c), Entry(c.key, Served(before, c))))
  {
    FindExactly(entries, c.key);
    ServedIsCharged(Before(entries, c), c);
  }

  lemma RefilledAfter(b: Bucket, c: Call, elapsed: real, tokens: real)
    requires elapsed == c.now - b.last && tokens == Min(c.capacity, b.tokens + elapsed * c.rate)
    ensures tokens == Refilled(b, c)
  {
  }

  class InMemoryRateLimitBackend {
    var buckets: seq<Entry>
    const maxTrackedClients: int

    constructor (maxTrackedClients: int := 10000)
      ensures buckets == [] && this.maxTrackedClients == maxTrackedClients
    {
      buckets, this.maxTrackedClients := [], maxTrackedClients;
    }

    method Consume(key: string, capacity: real, rate: real, now: real) returns (allowed: bool)
      modifies this`buckets
      ensures var c := Call(key, capacity, rate, now);
              && allowed == Allows(Before(old(buckets), c), c)
              && buckets == LruStep(old(buckets), maxTrackedClients, c)
      ensures exists after :: Charges(old(buckets), Call(key, capacity, rate, now), allowed, after)
                              && (maxTrackedClients >= 1 ==> EndsWith(buckets, Entry(key, after)))
    {
      StepCharges(buckets, maxTrackedClients, Call(key, capacity, rate, now));
      ghost var c := Call(key, capacity, rate, now);
      ghost var before := Before(buckets, c);
      var popped := Find(buckets, key);
      buckets := Without(buckets, key);
      var bucket := if popped.Some? then popped.value else Bucket(capacity, now);
      var elapsed := now - bucket.last;
      var tokens := Min(capacity, bucket.tokens + elapsed * rate);
      RefilledAfter(before, c, elapsed, tokens);
      allowed := tokens >= 1.0;
      if allowed {
        tokens := tokens - 1.0;
      }
      assert Bucket(tokens, now) == Served(before, c);
      buckets := buckets + [Entry(key, Bucket(tokens, now))];
      if |buckets| > maxTrackedClients {
        buckets := buckets[1..];
      }
    }
  }

  // ---------- whole call sequences ----------

  /** The bounded dictionary after a sequence of calls. */
  function Lru(calls: seq<Call>, maxTracked: int): seq<Entry> {
    if calls == [] then []
    else LruStep(Lru(calls[..|calls| - 1], maxTracked), maxTracked, calls[|calls| - 1])
  }

  /** The answer to the last call. */
  function LruAnswer(calls: seq<Call>, maxTracked: int): bool
    requires calls != []
  {
    var c := calls[|calls| - 1];
    Allows(Before(Lru(calls[..|calls| - 1], maxTracked), c), c)
  }

  /** The reference: one bucket per key ever seen, nothing evicted. */
  function Unbounded(calls: seq<Call>): map<string, Bucket> {
    if calls == [] then map[]
    else
      var m, c := Unbounded(calls[..|calls| - 1]), calls[|calls| - 1];
      m[c.key := Served(if c.key in m then m[c.key] else Fresh(c), c)]
  }

  function UnboundedAnswer(calls: seq<Call>): bool
    requires calls != []
  {
    var m, c := Unbounded(calls[..|calls| - 1]), calls[|calls| - 1];
    Allows(if c.key in m then m[c.key] else Fresh(c), c)
  }

  ghost function KeysOf(calls: seq<Call>): set<string> {
    set c | c in calls :: c.key
  }

  /** The keys used since the last use of `key`. */
  ghost function UsedSince(calls: seq<Call>, key: string): set<string>
    requires key in KeysOf(calls)
  {
    var n := |calls| - 1;
    if calls[n].key == key then {}
    else
      assert calls == calls[..n] + [calls[n]];
      UsedSince(calls[..n], key) + {calls[n].key}
  }

  // ---------- what the dictionary holds, and in which order ----------

  ghost function KeySet(entries: seq<Entry>): set<string> {
    if entries == [] then {} else KeySet(entries[..|entries| - 1]) + {entries[|entries| - 1].key}
  }

  ghost predicate KeysDistinct(entries: seq<Entry>) {
    entries == [] ||
    (entries[|entries| - 1].key !in KeySet(entries[..|entries| - 1]) && KeysDistinct(entries[..|entries| - 1]))
  }

  /** The keys that come after `key` in the dictionary. */
  ghost function After(entries: seq<Entry>, key: string): set<string> {
    if entries == [] || entries[|entries| - 1].key == key then {}
    else After(entries[..|entries| - 1], key) + {entries[|entries| - 1].key}
  }

  function Room(maxTracked: int): nat {
    if maxTracked < 0 then 0 else maxTracked
  }

  lemma KeySetStep(entries: seq<Entry>, e: Entry)
    ensures KeySet(entries + [e]) == KeySet(entries) + {e.key}
    ensures KeysDistinct(entries + [e]) <==> KeysDistinct(entries) && e.key !in KeySet(entries)
  {
    assert (entries + [e])[..|entries|] == entries;
  }

  lemma AfterStep(entries: seq<Entry>, e: Entry, key: string)
    ensures After(entries + [e], key) == if e.key == key then {} else After(entries, key) + {e.key}
  {
    assert (entries + [e])[..|entries|] == entries;
  }

  lemma RemovedStep(rest: seq<Entry>, e: Entry, key: string, kept: seq<Entry>)
    requires KeysDistinct(rest + [e])
    requires KeySet(kept) == KeySet(rest) - {key} && KeysDistinct(kept)
    ensures var more := kept + (if e.key == key then [] else [e]);
            KeySet(more) == KeySet(rest + [e]) - {key} && KeysDistinct(more)
  {
    KeySetStep(rest, e);
    KeySetStep(kept, e);
    assert kept + [] == kept;
  }

  lemma {:induction false} WithoutRemoves(entries: seq<Entry>, key: string)
    requires KeysDistinct(entries)
    ensures KeySet(Without(entries, key)) == KeySet(entries) - {key}
    ensures KeysDistinct(Without(entries, key))
    ensures |Without(entries, key)| <= |entries|
  {
    if entries == [] {
      assert Without(entries, key) == [];
    } else {
      var rest, e := entries[..|entries| - 1], entries[|entries| - 1];
      assert entries == rest + [e];
      WithoutRemoves(rest, key);
      var kept := Without(rest, key);
      RemovedStep(rest, e, key, kept);
      assert Without(entries, key) == kept + (if e.key == key then [] else [e]);
    }
  }

  lemma {:induction false} AfterWithout(entries: seq<Entry>, key: string, other: string)
    requires key != other
    ensures After(Without(entries, other), key) == After(entries, key) - {other}
  {
    if entries != [] {
      var n := |entries| - 1;
      var front := Without(entries[..n], other);
      AfterWithout(entries[..n], key, other);
      assert (front + [entries[n]])[..|front|] == front;
      assert front + [] == front;
    }
  }

  /** Evicting the first entry takes its key away and leaves the others as they were. */
  lemma {:induction false} Evicted(entries: seq<Entry>)
    requires entries != [] && KeysDistinct(entries)
    ensures KeySet(entries[1..]) == KeySet(entries) - {entries[0].key} && KeysDistinct(entries[1..])
    ensures forall k :: k in KeySet(entries[1..]) ==> After(entries[1..], k) == After(entries, k)
    ensures After(entries, entries[0].key) == KeySet(entries[1..])
  {
    var n := |entries| - 1;
    if n > 0 {
      Evicted(entries[..n]);
      assert entries[..n][1..] == entries[1..][..n - 1];
      FirstIsHeld(entries[..n]);
    } else {
      assert entries[1..] == [] && entries[..n] == [];
    }
  }

  lemma {:induction false} FirstIsHeld(entries: seq<Entry>)
    requires entries != []
    ensures entries[0].key in KeySet(entries)
  {
    if |entries| > 1 {
      FirstIsHeld(entries[..|entries| - 1]);
    }
  }

  lemma {:induction false} SizeIsKeyCount(entries: seq<Entry>)
    requires KeysDistinct(entries)
    ensures |KeySet(entries)| == |entries|
  {
    if entries != [] {
      SizeIsKeyCount(entries[..|entries| - 1]);
    }
  }

  lemma UsedSinceStep(calls: seq<Call>, key: string)
    requires calls != []
    ensures var front, c := calls[..|calls| - 1], calls[|calls| - 1];
            && KeysOf(calls) == KeysOf(front) + {c.key}
            && (key in KeysOf(calls) ==>
                  UsedSince(calls, key) == if key == c.key then {} else UsedSince(front, key) + {c.key})
  {
    assert calls == calls[..|calls| - 1] + [calls[|calls| - 1]];
  }

  /** A dictionary of at most `size` entries mirrors the calls: it is in last-use order, and what it has
      dropped has seen at least as many other keys since as there is room for. */
  ghost predicate Mirrors(entries: seq<Entry>, calls: seq<Call>, size: nat, room: nat) {
    && |entries| <= size
    && KeysDistinct(entries) && KeySet(entries) <= KeysOf(calls)
    && (forall k :: k in KeySet(entries) ==> After(entries, k) == UsedSince(calls, k))
    && (forall k :: k in KeysOf(calls) && k !in KeySet(entries) ==> |UsedSince(calls, k)| >= room)
  }

  lemma MovedKeys(entries: seq<Entry>, e: Entry)
    requires KeysDistinct(entries)
    ensures var moved := Without(entries, e.key) + [e];
            KeysDistinct(moved) && KeySet(moved) == KeySet(entries) + {e.key} && |moved| <= |entries| + 1
  {
    WithoutRemoves(entries, e.key);
    KeySetStep(Without(entries, e.key), e);
  }

  /** A call moves its key to the end; what follows any key is then what was used since. */
  lemma MovedAfter(entries: seq<Entry>, e: Entry, calls: seq<Call>, key: string)
    requires KeysDistinct(entries) && calls != [] && calls[|calls| - 1].key == e.key
    requires key == e.key || (key in KeySet(entries) && key in KeysOf(calls[..|calls| - 1])
                              && After(entries, key) == UsedSince(calls[..|calls| - 1], key))
    ensures key in KeysOf(calls) && After(Without(entries, e.key) + [e], key) == UsedSince(calls, key)
  {
    UsedSinceStep(calls, key);
    AfterStep(Without(entries, e.key), e, key);
    if key != e.key {
      AfterWithout(entries, key, e.key);
    }
  }

  lemma MovedMirrors(entries: seq<Entry>, e: Entry, calls: seq<Call>, room: nat)
    requires calls != [] && calls[|calls| - 1].key == e.key
    requires Mirrors(entries, calls[..|calls| - 1], room, room)
    ensures Mirrors(Without(entries, e.key) + [e], calls, room + 1, room)
  {
    var moved := Without(entries, e.key) + [e];
    MovedKeys(entries, e);
    UsedSinceStep(calls, e.key);
    forall k | k in KeySet(moved) ensures k in KeysOf(calls) && After(moved, k) == UsedSince(calls, k) {
      MovedAfter(entries, e, calls, k);
    }
    forall k | k in KeysOf(calls) && k !in KeySet(moved) ensures |UsedSince(calls, k)| >= room {
      DroppedStays(calls, k, room);
    }
  }

  lemma DroppedStays(calls: seq<Call>, key: string, room: nat)
    requires calls != [] && key in KeysOf(calls) && key != calls[|calls| - 1].key
    requires key in KeysOf(calls[..|calls| - 1]) ==> |UsedSince(calls[..|calls| - 1], key)| >= room
    ensures |UsedSince(calls, key)| >= room
  {
    UsedSinceStep(calls, key);
    SubsetIsSmaller(UsedSince(calls[..|calls| - 1], key), UsedSince(calls, key));
  }

  lemma EvictionMirrors(moved: seq<Entry>, calls: seq<Call>, maxTracked: int)
    requires moved != [] && Mirrors(moved, calls, Room(maxTracked) + 1, Room(maxTracked))
    ensures Mirrors(Bounded(moved, maxTracked), calls, Room(maxTracked), Room(maxTracked))
  {
    if |moved| > maxTracked {
      Evicted(moved);
      SizeIsKeyCount(moved[1..]);
      FirstIsHeld(moved);
    }
  }

  /** On every call sequence: the store never outgrows its bound, and its entries are in last-use order,
      the keys after any entry being exactly those used since that entry's last use. */
  lemma {:induction false} LruKeepsLastUseOrder(calls: seq<Call>, maxTracked: int)
    ensures Mirrors(Lru(calls, maxTracked), calls, Room(maxTracked), Room(maxTracked))
    ensures |Lru(calls, maxTracked)| <= if maxTracked < 0 then 0 else maxTracked
  {
    if calls != [] {
      var front, c := calls[..|calls| - 1], calls[|calls| - 1];
      LruKeepsLastUseOrder(front, maxTracked);
      var before := Lru(front, maxTracked);
      var e := Entry(c.key, Served(Before(before, c), c));
      MovedMirrors(before, e, calls, Room(maxTracked));
      EvictionMirrors(Without(before, c.key) + [e], calls, maxTracked);
    }
  }

  /** On every call sequence a key is still tracked exactly when fewer distinct keys than there is room
      for have been used since its last use. */
  lemma TrackedExactly(calls: seq<Call>, maxTracked: int, key: string)
    requires key in KeysOf(calls)
    ensures key in KeySet(Lru(calls, maxTracked)) <==> |UsedSince(calls, key)| < maxTracked
  {
    LruKeepsLastUseOrder(calls, maxTracked);
    var entries := Lru(calls, maxTracked);
    if key in KeySet(entries) {
      AfterIsFewer(entries, key);
    }
  }

  lemma {:induction false} AfterIsFewer(entries: seq<Entry>, key: string)
    requires KeysDistinct(entries) && key in KeySet(entries)
    ensures |After(entries, key)| < |entries|
  {
    var n := |entries| - 1;
    if entries[n].key != key {
      AfterIsFewer(entries[..n], key);
    }
  }

  // ---------- agreement with the unbounded store ----------

  lemma {:induction false} FindAmong(entries: seq<Entry>, key: string)
    ensures Find(entries, key).Some? <==> key in KeySet(entries)
  {
    if entries != [] {
      FindAmong(entries[..|entries| - 1], key);
    }
  }

  lemma {:induction false} FindWithout(entries: seq<Entry>, key: string, other: string)
    requires key != other
    ensures Find(Without(entries, other), key) == Find(entries, key)
  {
    if entries != [] {
      var n := |entries| - 1;
      var front := Without(entries[..n], other);
      FindWithout(entries[..n], key, other);
      assert (front + [entries[n]])[..|front|] == front;
      assert front + [] == front;
    }
  }

  lemma {:induction false} FindAfterEviction(entries: seq<Entry>, key: string)
    requires entries != [] && Find(entries[1..], key).Some?
    ensures Find(entries, key) == Find(entries[1..], key)
  {
    var n := |entries| - 1;
    if n > 0 && entries[n].key != key {
      assert entries[1..][..n - 1] == entries[..n][1..];
      FindAfterEviction(entries[..n], key);
    }
  }

  /** The bucket the unbounded store starts a call from. */
  function Start(m: map<string, Bucket>, c: Call): Bucket {
    if c.key in m then m[c.key] else Fresh(c)
  }

  /** Both stores give a call the same answer and leave its key the same bucket. */
  ghost predicate AgreeAt(front: seq<Call>, maxTracked: int, c: Call) {
    var bounded, unbounded := Before(Lru(front, maxTracked), c), Start(Unbounded(front), c);
    Allows(bounded, c) == Allows(unbounded, c) && Served(bounded, c) == Served(unbounded, c)
  }

  ghost predicate StoresAgree(calls: seq<Call>, maxTracked: int, key: string) {
    forall i :: 0 <= i < |calls| && calls[i].key == key ==> AgreeAt(calls[..i], maxTracked, calls[i])
  }

  /** The call finds its key seen before, and dropped since. */
  ghost predicate FindsEvicted(front: seq<Call>, maxTracked: int, c: Call) {
    c.key in KeysOf(front) && c.key !in KeySet(Lru(front, maxTracked))
  }

  /** Whenever the key has been evicted, its bucket would by now have refilled to the brim. */
  ghost predicate EvictionsHarmless(calls: seq<Call>, maxTracked: int, key: string) {
    forall i :: 0 <= i < |calls| && calls[i].key == key && FindsEvicted(calls[..i], maxTracked, calls[i]) ==>
      Refilled(Start(Unbounded(calls[..i]), calls[i]), calls[i]) == calls[i].capacity
  }

  lemma SameServedExactly(b: Bucket, u: Bucket, c: Call)
    ensures Allows(b, c) == Allows(u, c) && Served(b, c) == Served(u, c) <==> Refilled(b, c) == Refilled(u, c)
  {
  }

  lemma {:induction false} UnboundedKeys(calls: seq<Call>)
    ensures Unbounded(calls).Keys == KeysOf(calls)
  {
    if calls != [] {
      UnboundedKeys(calls[..|calls| - 1]);
      assert calls == calls[..|calls| - 1] + [calls[|calls| - 1]];
    }
  }

  lemma FreshIsFull(c: Call)
    ensures Refilled(Fresh(c), c) == c.capacity
  {
  }

  /** At a call the stores agree if the key is untouched, or what the bounded one holds is right, or it
      holds nothing and the true bucket is full. */
  lemma AgreesWhenHarmless(front: seq<Call>, maxTracked: int, c: Call)
    requires Find(Lru(front, maxTracked), c.key).Some? ==>
               c.key in Unbounded(front) && Find(Lru(front, maxTracked), c.key).value == Unbounded(front)[c.key]
    requires FindsEvicted(front, maxTracked, c) ==> Refilled(Start(Unbounded(front), c), c) == c.capacity
    ensures AgreeAt(front, maxTracked, c)
  {
    FindAmong(Lru(front, maxTracked), c.key);
    UnboundedKeys(front);
    FreshIsFull(c);
    SameServedExactly(Before(Lru(front, maxTracked), c), Start(Unbounded(front), c), c);
  }

  /** What the store holds for such a key, if anything, is the unbounded store's bucket. */
  lemma {:induction false} HeldBucketAgrees(calls: seq<Call>, maxTracked: int, key: string)
    requires EvictionsHarmless(calls, maxTracked, key)
    ensures Find(Lru(calls, maxTracked), key).Some? ==>
              key in Unbounded(calls) && Find(Lru(calls, maxTracked), key).value == Unbounded(calls)[key]
  {
    if calls != [] {
      var n := |calls| - 1;
      var front, c := calls[..n], calls[n];
      HarmlessBefore(calls, maxTracked, key, n);
      HeldBucketAgrees(front, maxTracked, key);
      var before := Lru(front, maxTracked);
      var entries := Without(before, c.key) + [Entry(c.key, Served(Before(before, c), c))];
      assert entries[..|entries| - 1] == Without(before, c.key);
      if c.key == key {
        AgreesWhenHarmless(front, maxTracked, c);
      } else {
        FindWithout(before, key, c.key);
      }
      if Find(Lru(calls, maxTracked), key).Some? && |entries| > maxTracked {
        FindAfterEviction(entries, key);
      }
    }
  }

  lemma HarmlessBefore(calls: seq<Call>, maxTracked: int, key: string, n: nat)
    requires n <= |calls| && EvictionsHarmless(calls, maxTracked, key)
    ensures EvictionsHarmless(calls[..n], maxTracked, key)
  {
    assert forall i :: 0 <= i < n ==> calls[..n][..i] == calls[..i];
  }

  /** Refinement, exactly: a key gets the answers and buckets of a store that never evicts, at every one of
      its calls, if and only if whenever a call finds it evicted its bucket would have refilled by then. */
  lemma StoresAgreeExactly(calls: seq<Call>, maxTracked: int, key: string)
    ensures StoresAgree(calls, maxTracked, key) <==> EvictionsHarmless(calls, maxTracked, key)
  {
    if EvictionsHarmless(calls, maxTracked, key) {
      forall i | 0 <= i < |calls| && calls[i].key == key ensures AgreeAt(calls[..i], maxTracked, calls[i]) {
        HarmlessBefore(calls, maxTracked, key, i);
        HeldBucketAgrees(calls[..i], maxTracked, key);
        AgreesWhenHarmless(calls[..i], maxTracked, calls[i]);
      }
    }
    if StoresAgree(calls, maxTracked, key) {
      forall i | 0 <= i < |calls| && calls[i].key == key && FindsEvicted(calls[..i], maxTracked, calls[i])
        ensures Refilled(Start(Unbounded(calls[..i]), calls[i]), calls[i]) == calls[i].capacity
      {
        var front, c := calls[..i], calls[i];
        assert AgreeAt(front, maxTracked, c);
        FindAmong(Lru(front, maxTracked), key);
        FreshIsFull(c);
        SameServedExactly(Before(Lru(front, maxTracked), c), Start(Unbounded(front), c), c);
      }
    }
  }

  // ---------- what a caller can see ----------

  /** The clock at the last call of a key. */
  function LastUse(calls: seq<Call>, key: string): real {
    if calls == [] then 0.0
    else if calls[|calls| - 1].key == key then calls[|calls| - 1].now
    else LastUse(calls[..|calls| - 1], key)
  }

  lemma {:induction false} BucketsDateFromLastUse(calls: seq<Call>, key: string)
    requires key in Unbounded(calls)
    ensures Unbounded(calls)[key].last == LastUse(calls, key)
  {
    if calls[|calls| - 1].key != key {
      BucketsDateFromLastUse(calls[..|calls| - 1], key);
    }
  }

  /** Since `last`, even an empty bucket would have refilled. */
  predicate IdleEnough(c: Call, last: real) {
    (c.now - last) * c.rate >= c.capacity
  }

  /** At each of its calls the key is new, or fewer than `maxTracked` distinct other keys came since its
      last call, or it was idle for as long as an empty bucket takes to refill. */
  ghost predicate Spaced(calls: seq<Call>, maxTracked: int, key: string) {
    forall i :: 0 <= i < |calls| && calls[i].key == key && key in KeysOf(calls[..i]) ==>
      || |UsedSince(calls[..i], key)| < maxTracked
      || IdleEnough(calls[i], LastUse(calls[..i], key))
  }

  lemma SpacedCallIsFull(front: seq<Call>, maxTracked: int, c: Call)
    requires Steady(front, c.capacity, c.rate) && FindsEvicted(front, maxTracked, c)
    requires |UsedSince(front, c.key)| < maxTracked || IdleEnough(c, LastUse(front, c.key))
    ensures Refilled(Start(Unbounded(front), c), c) == c.capacity
  {
    EvictedWasIdle(front, maxTracked, c);
    var b := BucketAt(front, c.capacity, c.rate, c.key);
    IdleIsFull(b, c);
  }

  lemma EvictedWasIdle(front: seq<Call>, maxTracked: int, c: Call)
    requires FindsEvicted(front, maxTracked, c)
    requires |UsedSince(front, c.key)| < maxTracked || IdleEnough(c, LastUse(front, c.key))
    ensures IdleEnough(c, LastUse(front, c.key))
  {
    TrackedExactly(front, maxTracked, c.key);
  }

  lemma BucketAt(front: seq<Call>, capacity: real, rate: real, key: string) returns (b: Bucket)
    requires Steady(front, capacity, rate) && key in KeysOf(front)
    ensures key in Unbounded(front) && Unbounded(front)[key] == b
    ensures InRange(b, capacity) && b.last == LastUse(front, key)
  {
    UnboundedKeys(front);
    b := Unbounded(front)[key];
    TokensInRange(front, capacity, rate, key);
    BucketsDateFromLastUse(front, key);
  }

  lemma IdleIsFull(b: Bucket, c: Call)
    requires InRange(b, c.capacity) && IdleEnough(c, b.last)
    ensures Refilled(b, c) == c.capacity
  {
  }

  /** This is enough, for a steady clock and configuration. */
  lemma SpacedIsHarmless(calls: seq<Call>, maxTracked: int, capacity: real, rate: real, key: string)
    requires Steady(calls, capacity, rate) && Spaced(calls, maxTracked, key)
    ensures EvictionsHarmless(calls, maxTracked, key)
  {
    forall i | 0 <= i < |calls| && calls[i].key == key && FindsEvicted(calls[..i], maxTracked, calls[i])
      ensures Refilled(Start(Unbounded(calls[..i]), calls[i]), calls[i]) == calls[i].capacity
    {
      SteadyPrefix(calls, capacity, rate, i);
      SpacedCallIsFull(calls[..i], maxTracked, calls[i]);
    }
  }

  lemma SteadyPrefix(calls: seq<Call>, capacity: real, rate: real, n: nat)
    requires n <= |calls| && Steady(calls, capacity, rate)
    ensures Steady(calls[..n], capacity, rate)
  {
  }

  // ---------- the rate bound ----------

  /** One capacity and one rate throughout, as the middleware passes, and a clock that never goes back. */
  ghost predicate Steady(calls: seq<Call>, capacity: real, rate: real) {
    && capacity >= 0.0 && rate >= 0.0
    && (forall i :: 0 <= i < |calls| ==> calls[i].capacity == capacity && calls[i].rate == rate)
    && (forall i, j :: 0 <= i <= j < |calls| ==> calls[i].now <= calls[j].now)
  }

  /** The calls of `key` in the window that the unbounded store admits. */
  ghost function Admitted(calls: seq<Call>, key: string, from: real, to: real): nat {
    if calls == [] then 0
    else
      var c := calls[|calls| - 1];
      Admitted(calls[..|calls| - 1], key, from, to)
      + (if c.key == key && from <= c.now <= to && UnboundedAnswer(calls) then 1 else 0)
  }

  ghost function AdmittedByLru(calls: seq<Call>, maxTracked: int, key: string, from: real, to: real): nat {
    if calls == [] then 0
    else
      var c := calls[|calls| - 1];
      AdmittedByLru(calls[..|calls| - 1], maxTracked, key, from, to)
      + (if c.key == key && from <= c.now <= to && LruAnswer(calls, maxTracked) then 1 else 0)
  }

  lemma Nonnegative(x: real, y: real)
    requires x >= 0.0 && y >= 0.0
    ensures x * y >= 0.0
  {
  }

  lemma ProductNonnegative(x: real, y: real, product: real)
    requires x >= 0.0 && y >= 0.0 && product == x * y
    ensures product >= 0.0
  {
  }

  lemma Distributes(x: real, y: real, z: real, rate: real)
    ensures (y - x) * rate + (z - y) * rate == (z - x) * rate
  {
  }

  ghost predicate InRange(b: Bucket, capacity: real) {
    0.0 <= b.tokens <= capacity
  }

  lemma ServedInRange(b: Bucket, c: Call)
    requires InRange(b, c.capacity) && c.rate >= 0.0 && b.last <= c.now
    ensures InRange(Served(b, c), c.capacity)
  {
    Nonnegative(c.now - b.last, c.rate);
  }

  /** One admitted request costs one token; refilling adds what the rate allows for the time passed. */
  lemma ServedPays(b: Bucket, c: Call, from: real, admitted: nat, earned: real)
    requires c.rate >= 0.0 && b.last <= c.now
    requires if b.last >= from then earned == (b.last - from) * c.rate else earned == 0.0 && admitted == 0
    requires admitted as real + b.tokens <= c.capacity + earned
    requires c.now >= from
    ensures (admitted + if Allows(b, c) then 1 else 0) as real + Served(b, c).tokens
            <= c.capacity + (c.now - from) * c.rate
  {
    var refill, whole := (c.now - b.last) * c.rate, (c.now - from) * c.rate;
    assert Refilled(b, c) == Min(c.capacity, b.tokens + refill);
    assert earned + refill == whole || b.last < from by {
      Distributes(from, b.last, c.now, c.rate);
    }
    ProductNonnegative(c.now - from, c.rate, whole);
    assert admitted as real + Refilled(b, c) <= c.capacity + whole;
  }

  /** A bucket's tokens stay between zero and the capacity, and its refill time in the past. */
  lemma {:induction false} TokensInRange(calls: seq<Call>, capacity: real, rate: real, key: string)
    requires Steady(calls, capacity, rate) && key in Unbounded(calls)
    ensures InRange(Unbounded(calls)[key], capacity)
    ensures calls != [] && Unbounded(calls)[key].last <= calls[|calls| - 1].now
  {
    var n := |calls| - 1;
    var front, c := calls[..n], calls[n];
    var m := Unbounded(front);
    if key in m {
      TokensInRange(front, capacity, rate, key);
      assert front[n - 1] == calls[n - 1] && calls[n - 1].now <= c.now;
    }
    if key == c.key {
      ServedInRange(if key in m then m[key] else Fresh(c), c);
    }
  }

  /** What the bounded store holds for a key after a call is what it held before, or what the call left. */
  lemma FindAfterCall(calls: seq<Call>, maxTracked: int, key: string)
    requires calls != [] && Find(Lru(calls, maxTracked), key).Some?
    ensures var before, c := Lru(calls[..|calls| - 1], maxTracked), calls[|calls| - 1];
            Find(Lru(calls, maxTracked), key)
            == if key == c.key then Some(Served(Before(before, c), c)) else Find(before, key)
  {
    var before, c := Lru(calls[..|calls| - 1], maxTracked), calls[|calls| - 1];
    var entries := Without(before, c.key) + [Entry(c.key, Served(Before(before, c), c))];
    assert entries[..|entries| - 1] == Without(before, c.key);
    if |entries| > maxTracked {
      FindAfterEviction(entries, key);
    }
    if key != c.key {
      FindWithout(before, key, c.key);
    }
  }

  /** So do those of every entry of the bounded store, evictions or not. */
  lemma {:induction false} LruTokensInRange(calls: seq<Call>, maxTracked: int, capacity: real, rate: real, key: string)
    requires Steady(calls, capacity, rate) && Find(Lru(calls, maxTracked), key).Some?
    ensures var b := Find(Lru(calls, maxTracked), key).value;
            InRange(b, capacity) && b.last <= calls[|calls| - 1].now
  {
    var n := |calls| - 1;
    var front, c := calls[..n], calls[n];
    var before := Lru(front, maxTracked);
    FindAfterCall(calls, maxTracked, key);
    if Find(before, key).Some? {
      LruTokensInRange(front, maxTracked, capacity, rate, key);
      assert front[n - 1] == calls[n - 1] && calls[n - 1].now <= c.now;
    }
    if key == c.key {
      ServedInRange(Before(before, c), c);
    }
  }

  /** What has been admitted since `from`, plus what is left, is bounded by the capacity plus what has
      been refilled since. */
  ghost predicate Paid(m: map<string, Bucket>, capacity: real, rate: real, key: string, from: real, admitted: nat) {
    if key in m && m[key].last >= from
    then admitted as real + m[key].tokens <= capacity + (m[key].last - from) * rate
    else admitted == 0
  }

  ghost function AfterCall(m: map<string, Bucket>, c: Call): map<string, Bucket> {
    m[c.key := Served(Start(m, c), c)]
  }

  ghost function AdmittedAfter(m: map<string, Bucket>, c: Call, key: string, from: real, admitted: nat): nat {
    admitted + if c.key == key && from <= c.now && Allows(Start(m, c), c) then 1 else 0
  }

  lemma PaidStep(m: map<string, Bucket>, c: Call, key: string, from: real, admitted: nat)
    requires c.rate >= 0.0 && c.capacity >= 0.0
    requires key in m ==> m[key].last <= c.now && m[key].tokens <= c.capacity
    requires Paid(m, c.capacity, c.rate, key, from, admitted)
    ensures Paid(AfterCall(m, c), c.capacity, c.rate, key, from, AdmittedAfter(m, c, key, from, admitted))
  {
    if c.key == key && c.now >= from {
      ServedFrom(if key in m then m[key] else Fresh(c), c, from, admitted, key in m);
    }
  }

  lemma {:induction false} AdmittedPlusTokens(calls: seq<Call>, capacity: real, rate: real, key: string, from: real,
                                              to: real)
    requires Steady(calls, capacity, rate)
    requires forall i :: 0 <= i < |calls| ==> calls[i].now <= to
    ensures Paid(Unbounded(calls), capacity, rate, key, from, Admitted(calls, key, from, to))
  {
    if calls != [] {
      var n := |calls| - 1;
      var front, c := calls[..n], calls[n];
      AdmittedPlusTokens(front, capacity, rate, key, from, to);
      var m := Unbounded(front);
      if key in m {
        TokensInRange(front, capacity, rate, key);
        assert front[n - 1] == calls[n - 1] && calls[n - 1].now <= c.now;
      }
      var admitted := Admitted(front, key, from, to);
      PaidStep(m, c, key, from, admitted);
      assert Unbounded(calls) == AfterCall(m, c);
      assert Admitted(calls, key, from, to) == AdmittedAfter(m, c, key, from, admitted);
    }
  }

  lemma ServedFrom(b: Bucket, c: Call, from: real, admitted: nat, known: bool)
    requires c.rate >= 0.0 && c.now >= from && b.last <= c.now && b.tokens <= c.capacity
    requires known && b.last >= from ==> admitted as real + b.tokens <= c.capacity + (b.last - from) * c.rate
    requires !(known && b.last >= from) ==> admitted == 0
    ensures (admitted + if Allows(b, c) then 1 else 0) as real + Served(b, c).tokens
            <= c.capacity + (c.now - from) * c.rate
  {
    if known && b.last >= from {
      ServedPays(b, c, from, admitted, (b.last - from) * c.rate);
    } else if b.last >= from {
      var earned := (b.last - from) * c.rate;
      ProductNonnegative(b.last - from, c.rate, earned);
      ServedPays(b, c, from, 0, earned);
    } else {
      ServedPays(b, c, from, 0, 0.0);
    }
  }

  lemma {:induction false} WithinWindow(calls: seq<Call>, capacity: real, rate: real, key: string, from: real, to: real)
    requires Steady(calls, capacity, rate) && from <= to
    ensures Admitted(calls, key, from, to) as real <= capacity + (to - from) * rate
  {
    var n := |calls| - 1;
    if calls != [] && calls[n].now > to {
      WithinWindow(calls[..n], capacity, rate, key, from, to);
    } else {
      AdmittedPlusTokens(calls, capacity, rate, key, from, to);
      if key in Unbounded(calls) {
        TokensInRange(calls, capacity, rate, key);
      }
      PaidWithin(Unbounded(calls), capacity, rate, key, from, to, Admitted(calls, key, from, to));
    }
  }

  lemma PaidWithin(m: map<string, Bucket>, capacity: real, rate: real, key: string, from: real, to: real, admitted: nat)
    requires Paid(m, capacity, rate, key, from, admitted) && from <= to && rate >= 0.0 && capacity >= 0.0
    requires key in m ==> m[key].tokens >= 0.0 && m[key].last <= to
    ensures admitted as real <= capacity + (to - from) * rate
  {
    Nonnegative(to - from, rate);
    if key in m && m[key].last >= from {
      var elapsed, window := m[key].last - from, to - from;
      assert admitted as real + m[key].tokens <= capacity + elapsed * rate;
      Longer(elapsed, window, rate);
      assert elapsed * rate <= window * rate;
    }
  }

  lemma Longer(x: real, y: real, rate: real)
    requires x <= y && rate >= 0.0
    ensures x * rate <= y * rate
  {
  }

  lemma {:induction false} SameAdmissions(calls: seq<Call>, maxTracked: int, key: string, from: real, to: real)
    requires EvictionsHarmless(calls, maxTracked, key)
    ensures AdmittedByLru(calls, maxTracked, key, from, to) == Admitted(calls, key, from, to)
  {
    if calls != [] {
      var n := |calls| - 1;
      HarmlessBefore(calls, maxTracked, key, n);
      SameAdmissions(calls[..n], maxTracked, key, from, to);
      if calls[n].key == key {
        StoresAgreeExactly(calls, maxTracked, key);
        assert AgreeAt(calls[..n], maxTracked, calls[n]);
      }
    }
  }

  /** The rate limit: for a key whose evictions are harmless, the number of requests the bounded store
      admits in any window is at most the capacity plus the rate times the window's length. */
  lemma RateLimitHolds(calls: seq<Call>, maxTracked: int, capacity: real, rate: real, key: string, from: real, to: real)
    requires Steady(calls, capacity, rate) && EvictionsHarmless(calls, maxTracked, key) && from <= to
    ensures AdmittedByLru(calls, maxTracked, key, from, to) as real <= capacity + (to - from) * rate
  {
    SameAdmissions(calls, maxTracked, key, from, to);
    WithinWindow(calls, capacity, rate, key, from, to);
  }

  /** In terms of what a caller can see. */
  lemma RateLimitHoldsWhenSpaced(calls: seq<Call>, maxTracked: int, capacity: real, rate: real, key: string,
                                 from: real, to: real)
    requires Steady(calls, capacity, rate) && Spaced(calls, maxTracked, key) && from <= to
    ensures AdmittedByLru(calls, maxTracked, key, from, to) as real <= capacity + (to - from) * rate
  {
    SpacedIsHarmless(calls, maxTracked, capacity, rate, key);
    RateLimitHolds(calls, maxTracked, capacity, rate, key, from, to);
  }

  /** With room for one, a newcomer of capacity one is admitted and replaces whoever was tracked. */
  lemma NewcomerReplaces(calls: seq<Call>, c: Call, held: seq<Entry>)
    requires Lru(calls, 1) == held && (held == [] || (|held| == 1 && held[0].key != c.key)) && c.capacity == 1.0
    ensures LruAnswer(calls + [c], 1) && |Lru(calls + [c], 1)| == 1 && Lru(calls + [c], 1)[0].key == c.key
  {
    assert (calls + [c])[..|calls|] == calls;
    FreshIsFull(c);
    if held != [] {
      assert held[..0] == [] && held == [held[0]];
    }
    assert Find(held, c.key) == None && Without(held, c.key) == held;
  }

  lemma AdmittedMore(calls: seq<Call>, c: Call, key: string)
    requires LruAnswer(calls + [c], 1) && c.now == 0.0
    ensures AdmittedByLru(calls + [c], 1, key, 0.0, 0.0) == AdmittedByLru(calls, 1, key, 0.0, 0.0)
            + if c.key == key then 1 else 0
  {
    assert (calls + [c])[..|calls|] == calls;
  }

  /** Eviction forgives: with room for one client and a capacity of one, a key gets two requests through
      at one instant when another key's call comes in between. */
  lemma EvictionBreaksTheLimit() returns (calls: seq<Call>)
    ensures Steady(calls, 1.0, 1.0)
    ensures AdmittedByLru(calls, 1, "a", 0.0, 0.0) as real > 1.0 + (0.0 - 0.0) * 1.0
  {
    var a, b := Call("a", 1.0, 1.0, 0.0), Call("b", 1.0, 1.0, 0.0);
    var c0, c1, c2 := [], [] + [a], [] + [a] + [b];
    NewcomerReplaces(c0, a, []);
    AdmittedMore(c0, a, "a");
    NewcomerReplaces(c1, b, Lru(c1, 1));
    AdmittedMore(c1, b, "a");
    NewcomerReplaces(c2, a, Lru(c2, 1));
    AdmittedMore(c2, a, "a");
    calls := c2 + [a];
  }
}
