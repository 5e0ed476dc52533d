/** Rows a replay seeds into the shadow database, and the log that lets a later startup remove them:
    `blog_seeders.py`, `shadow_seed_log.py`, `replay_seeders.py`. */
module ShadowSeeds {
  import opened Json
  import opened OrderedSelect

  type PostId = string

  /** Which insert made a shadow row. Nothing branches on it: it only lets properties be stated. */
  datatype Origin = Seeded | Foreign

  datatype Entry = Entry(domain: string, resource: string, routeKey: string, tornDown: bool)

  /** The posts of the shadow database and the rows of the seed log; a log row's id is its position,
      for ids are never reused. */
  datatype Tables = Tables(posts: map<PostId, Origin>, log: seq<Entry>)

  const BLOG_POST := "blog_post"
  const UPDATE_POST := "POST /admin/app/api/posts/{post_id}"

  datatype Brick = Brick(request: Json, routeKey: Json)

  /** What the registry and the seeder make of a brick. `Unhashable` is the exception of looking up a
      list or a dictionary as a key. */
  datatype Plan = NoSeed | Unhashable | SeedPost(post: PostId)

  predicate Falsy(v: Json) {
    match v
    case JNull => true
    case JStr(s) => s == ""
    case JArray(items) => items == []
    case JObject(fields) => fields == map[]
    case _ => Number(v).Some? && Number(v).value == 0.0
  }

  function PlanFor(brick: Brick): Plan {
    if Falsy(brick.routeKey) then NoSeed
    else if brick.routeKey.JArray? || brick.routeKey.JObject? then Unhashable
    else if brick.routeKey != JStr(UPDATE_POST) || !brick.request.JObject? then NoSeed
    else
      var post := GetOrNull(brick.request.fields, "post_id");
      if post.JStr? then SeedPost(post.s) else NoSeed
  }

  /** The brick is a capture of a post being updated, of this post. */
  predicate UpdatesPost(brick: Brick, post: PostId) {
    && brick.routeKey == JStr("POST /admin/app/api/posts/{post_id}")
    && brick.request.JObject? && "post_id" in brick.request.fields && brick.request.fields["post_id"] == JStr(post)
  }

  /** A route key that is a list or an object, and not empty, cannot be looked up. */
  predicate CannotBeLookedUp(routeKey: Json) {
    match routeKey
    case JArray(items) => |items| > 0
    case JObject(fields) => |fields| > 0
    case _ => false
  }

  lemma PlansExactly(brick: Brick)
    ensures forall post :: PlanFor(brick) == SeedPost(post) <==> UpdatesPost(brick, post)
    ensures PlanFor(brick).Unhashable? <==> CannotBeLookedUp(brick.routeKey)
  {
    assert UPDATE_POST != "";
    if brick.routeKey.JObject? {
      assert brick.routeKey.fields == map[] <==> |brick.routeKey.fields| == 0;
    }
  }

  // ---------- the four writes ----------

  function AfterSeed(t: Tables, p: PostId): Tables {
    t.(posts := t.posts[p := Seeded])
  }

  function AfterLog(t: Tables, p: PostId): Tables {
    t.(log := t.log + [Entry(BLOG_POST, p, UPDATE_POST, false)])
  }

  function AfterDelete(t: Tables, p: PostId): Tables {
    t.(posts := t.posts - {p})
  }

  function AfterMark(t: Tables, id: nat): Tables {
    if id < |t.log| then t.(log := t.log[id := t.log[id].(tornDown := true)]) else t
  }

  /** A startup sweep knows how to delete rows of one domain; the rest it only marks. */
  function AfterHandler(t: Tables, id: nat): Tables
    requires id < |t.log|
  {
    if t.log[id].domain == BLOG_POST then AfterDelete(t, t.log[id].resource) else t
  }

  // ---------- the sweep ----------

  predicate Pending(t: Tables, id: nat) {
    id < |t.log| && !t.log[id].tornDown
  }

  /** Entry `id` is what a sweep would delete post `p` by. */
  predicate Names(t: Tables, id: nat, p: PostId) {
    Pending(t, id) && t.log[id].domain == BLOG_POST && t.log[id].resource == p
  }

  predicate Recoverable(t: Tables, p: PostId) {
    exists id: nat :: id < |t.log| && Names(t, id, p)
  }

  /** A legal answer of `list_pending`, which promises no order. */
  ghost predicate PendingList(t: Tables, ids: seq<nat>) {
    Distinct(ids) && forall id: nat :: id in ids <==> Pending(t, id)
  }

  /** What a sweep that is not interrupted leaves. */
  function Swept(t: Tables): Tables {
    Tables(
      map p | p in t.posts && !Recoverable(t, p) :: t.posts[p],
      seq(|t.log|, i requires 0 <= i < |t.log| => t.log[i].(tornDown := true)))
  }

  /** Deleting what some pending entry names does not change what a sweep comes to ... */
  lemma HandlerKeepsSwept(t: Tables, id: nat)
    requires Pending(t, id)
    ensures Swept(AfterHandler(t, id)) == Swept(t)
  {
    var t' := AfterHandler(t, id);
    forall p ensures Recoverable(t', p) <==> Recoverable(t, p) {
      SameLogSameRecoverable(t, t', p);
    }
    assert t.log[id].domain == BLOG_POST ==> Names(t, id, t.log[id].resource);
  }

  lemma SameLogSameRecoverable(t: Tables, t': Tables, p: PostId)
    requires t'.log == t.log
    ensures Recoverable(t', p) <==> Recoverable(t, p)
  {
    forall id: nat ensures Names(t', id, p) <==> Names(t, id, p) {}
  }

  /** ... and neither does marking an entry whose post is gone, or that no handler knows. */
  lemma MarkKeepsSwept(t: Tables, id: nat)
    requires Pending(t, id) && (t.log[id].domain == BLOG_POST ==> t.log[id].resource !in t.posts)
    ensures Swept(AfterMark(t, id)) == Swept(t)
  {
    var t' := AfterMark(t, id);
    forall p | p in t.posts ensures Recoverable(t', p) <==> Recoverable(t, p) {
      forall j: nat ensures Names(t', j, p) <==> Names(t, j, p) {}
    }
    assert Swept(t').log == Swept(t).log;
  }

  lemma NothingPendingIsSwept(t: Tables)
    requires forall id: nat :: !Pending(t, id)
    ensures Swept(t) == t
  {
    forall i | 0 <= i < |t.log| ensures t.log[i].tornDown {
      assert !Pending(t, i);
    }
    assert Swept(t).log == t.log;
  }

  /** After a sweep nothing is pending, and a second one finds nothing to do. */
  lemma SweptTwice(t: Tables)
    ensures forall id: nat :: !Pending(Swept(t), id)
    ensures Swept(Swept(t)) == Swept(t)
  {
    NothingPendingIsSwept(Swept(t));
  }

  // ---------- the repositories ----------

  class ShadowDb {
    var posts: map<PostId, Origin>

    constructor (posts: map<PostId, Origin>)
      ensures this.posts == posts
    {
      this.posts := posts;
    }

    /** The primary key is the caller's to respect. */
    method Seed(id: PostId)
      requires id !in posts
      modifies this
      ensures posts == old(posts)[id := Seeded]
    {
      posts := posts[id := Seeded];
    }

    /** Deleting a post that is not there is a no-op. */
    method Delete(id: PostId)
      modifies this
      ensures posts == old(posts) - {id}
    {
      if id !in posts {
        assert posts - {id} == posts;
        return;
      }
      posts := posts - {id};
    }
  }

  class SeedLog {
    var rows: seq<Entry>

    constructor (rows: seq<Entry>)
      ensures this.rows == rows
    {
      this.rows := rows;
    }

    method RecordSeed(domain: string, resource: string, routeKey: string) returns (id: nat)
      modifies this
      ensures rows == old(rows) + [Entry(domain, resource, routeKey, false)] && id == |old(rows)|
    {
      id := |rows|;
      rows := rows + [Entry(domain, resource, routeKey, false)];
    }

    method RecordTeardown(id: nat)
      modifies this
      ensures rows == if id < |old(rows)| then old(rows)[id := old(rows)[id].(tornDown := true)] else old(rows)
      ensures forall posts :: Tables(posts, rows) == AfterMark(Tables(posts, old(rows)), id)
    {
      if id < |rows| {
        rows := rows[id := rows[id].(tornDown := true)];
      }
    }

    method ListPending() returns (ids: seq<nat>)
      ensures forall posts :: PendingList(Tables(posts, rows), ids)
    {
      ids := [];
      for i := 0 to |rows|
        invariant Distinct(ids)
        invariant forall id: nat :: id in ids <==> id < i && !rows[id].tornDown
      {
        if !rows[i].tornDown {
          ids := ids + [i];
        }
      }
    }
  }

  // ---------- seeding, teardown, sweep ----------

  /** `seed_for_replay`'s result: the closure it returns is the post and the log id it captured. */
  datatype Outcome = Nothing | TypeError | MustTearDown(post: PostId, logId: nat)

  method SeedForReplay(db: ShadowDb, log: SeedLog, brick: Brick) returns (outcome: Outcome)
    modifies db, log
    ensures forall post :: UpdatesPost(brick, post) && post !in old(db.posts) ==>
              && db.posts == old(db.posts)[post := Seeded]
              && log.rows == old(log.rows) + [Entry("blog_post", post, "POST /admin/app/api/posts/{post_id}", false)]
              && outcome == MustTearDown(post, |old(log.rows)|)
    ensures (forall post :: UpdatesPost(brick, post) ==> post in old(db.posts)) ==>
              && db.posts == old(db.posts) && log.rows == old(log.rows)
              && outcome == if CannotBeLookedUp(brick.routeKey) then TypeError else Nothing
    ensures var t, plan := old(Tables(db.posts, log.rows)), PlanFor(brick);
            if plan.SeedPost? && plan.post !in t.posts then
              && Tables(db.posts, log.rows) == AfterLog(AfterSeed(t, plan.post), plan.post)
              && outcome == MustTearDown(plan.post, |t.log|)
            else
              Tables(db.posts, log.rows) == t && outcome == if plan.Unhashable? then TypeError else Nothing
  {
    PlansExactly(brick);
    match PlanFor(brick) {
      case NoSeed => return Nothing;
      case Unhashable => return TypeError;
      case SeedPost(post) =>
        if post in db.posts {
          return Nothing;
        }
        db.Seed(post);
        var id := log.RecordSeed(BLOG_POST, post, UPDATE_POST);
        return MustTearDown(post, id);
    }
  }

  method LoggedTeardown(db: ShadowDb, log: SeedLog, post: PostId, logId: nat)
    modifies db, log
    ensures db.posts == old(db.posts) - {post}
    ensures log.rows == if logId < |old(log.rows)| then old(log.rows)[logId := old(log.rows)[logId].(tornDown := true)]
                        else old(log.rows)
    ensures Tables(db.posts, log.rows) == AfterMark(AfterDelete(old(Tables(db.posts, log.rows)), post), logId)
  {
    db.Delete(post);
    log.RecordTeardown(logId);
    assert Tables(db.posts, log.rows) == AfterMark(Tables(db.posts, old(log.rows)), logId);
  }

  /** Some entry that is not marked yet names the post. */
  ghost predicate StillNamed(log: seq<Entry>, p: PostId) {
    exists id :: 0 <= id < |log| && !log[id].tornDown && log[id].domain == "blog_post" && log[id].resource == p
  }

  /** What a sweep leaves: the posts that no unmarked entry names, and the same entries, all marked. */
  ghost predicate SweptClean(before: Tables, after: Tables) {
    && (forall p :: p in after.posts <==> p in before.posts && !StillNamed(before.log, p))
    && (forall p :: p in after.posts ==> after.posts[p] == before.posts[p])
    && |after.log| == |before.log|
    && forall i :: 0 <= i < |after.log| ==>
         && after.log[i].tornDown && after.log[i].domain == before.log[i].domain
         && after.log[i].resource == before.log[i].resource && after.log[i].routeKey == before.log[i].routeKey
  }

  lemma SweptIsClean(t: Tables)
    ensures SweptClean(t, Swept(t))
  {
    forall p ensures Recoverable(t, p) <==> StillNamed(t.log, p) {
      if id: nat :| id < |t.log| && Names(t, id, p) {
        assert t.log[id].resource == p;
      }
      if id :| 0 <= id < |t.log| && !t.log[id].tornDown && t.log[id].domain == "blog_post" && t.log[id].resource == p {
        assert Names(t, id, p);
      }
    }
  }

  /** Whatever order the pending entries come in, the sweep leaves `Swept`. */
  method SweepStaleShadowSeeds(db: ShadowDb, log: SeedLog) returns (found: nat)
    modifies db, log
    ensures SweptClean(old(Tables(db.posts, log.rows)), Tables(db.posts, log.rows))
    ensures Tables(db.posts, log.rows) == Swept(old(Tables(db.posts, log.rows)))
    ensures found == |set id | 0 <= id < |old(log.rows)| && !old(log.rows)[id].tornDown|
  {
    ghost var start := Tables(db.posts, log.rows);
    var pending := log.ListPending();
    assert PendingList(start, pending);
    DistinctCardinality(pending);
    assert Elements(pending) == set id | 0 <= id < |start.log| && !start.log[id].tornDown;
    for i := 0 to |pending|
      invariant forall id: nat :: Pending(Tables(db.posts, log.rows), id) <==> id in pending[i..]
      invariant Swept(Tables(db.posts, log.rows)) == Swept(start)
    {
      ghost var t := Tables(db.posts, log.rows);
      var id := pending[i];
      assert Pending(t, id);
      HandlerKeepsSwept(t, id);
      if log.rows[id].domain == BLOG_POST {
        db.Delete(log.rows[id].resource);
      }
      ghost var t' := Tables(db.posts, log.rows);
      assert t' == AfterHandler(t, id);
      MarkKeepsSwept(t', id);
      log.RecordTeardown(id);
      assert Tables(db.posts, log.rows) == AfterMark(t', id);
      assert pending[i..] == [id] + pending[i + 1..];
      forall j: nat ensures Pending(AfterMark(t', id), j) <==> j in pending[i + 1..] {
        assert Pending(AfterMark(t', id), j) <==> Pending(t, j) && j != id;
      }
    }
    NothingPendingIsSwept(Tables(db.posts, log.rows));
    SweptIsClean(start);
    return |pending|;
  }
}
