/**
 Properties that relate several service operations: read-after-write round
 trips, the invariants every operation keeps over any sequence of calls, and
 what delete does to the recent list depending on whether the cache agrees
 with the store.
 */
module ServiceProperties {
  import opened Notifications
  import opened NotificationService
  import RedisList
  import opened Ints

  /** The caches agree with the store, as they do whenever every write has gone
      through the service: a cached value is the stored record, a recent entry
      whose record still exists is that record and is cached, and no id occurs
      twice in the recent list. */
  ghost predicate Coherent(s: State)
  {
    && Valid(s)
    && (forall k :: k in s.cache ==> k in s.store && s.cache[k] == s.store[k])
    && (forall i :: 0 <= i < |s.recent| && s.recent[i].id in s.store ==>
          s.recent[i].id in s.cache && s.cache[s.recent[i].id] == s.recent[i])
    && DistinctIds(s.recent)
  }

  /** One call into the service. */
  datatype Op =
    | CreateOp(req: CreateRequest, createdAt: string)
    | GetByIdOp(id: int)
    | GetRecentOp
    | UpdateOp(id: int, change: UpdateRequest)
    | DeleteOp(id: int)

  function Apply(s: State, op: Op): State
  {
    match op
    case CreateOp(req, createdAt) => Create(s, req, createdAt).next
    case GetByIdOp(id) => GetById(s, id).next
    case GetRecentOp => GetRecent(s).next
    case UpdateOp(id, change) => Update(s, id, change).next
    case DeleteOp(id) => Delete(s, id).next
  }

  /** The state after the calls `ops`, one after another, starting from `s`. */
  function Run(s: State, ops: seq<Op>): State
    decreases |ops|
  {
    if |ops| == 0 then s else Run(Apply(s, ops[0]), ops[1..])
  }

  // ---------------------------------------------------------------------------
  // Read-after-write

  /** The record a successful create returns is what getById then returns, served
      from the cache without changing anything. */
  lemma CreateThenGetById(s: State, req: CreateRequest, createdAt: string)
    requires Create(s, req, createdAt).result.Ok?
    ensures var step := Create(s, req, createdAt);
            GetById(step.next, step.result.value.id) == Step(Ok(step.result.value), step.next)
  {
  }

  /** After a successful update, getById returns the updated record, whether the
      cache held an entry for the id or not. */
  lemma UpdateThenGetById(s: State, id: int, req: UpdateRequest)
    requires id in s.store
    ensures var step := Update(s, id, req);
            GetById(step.next, id).result == step.result
  {
  }

  /** After a successful delete the id is gone for reads, updates and deletes. */
  lemma DeleteThenNotFound(s: State, id: int, req: UpdateRequest)
    requires id in s.store
    ensures var next := Delete(s, id).next;
            && GetById(next, id) == Step(NotFound, next)
            && Update(next, id, req) == Step(NotFound, next)
            && Delete(next, id) == Step(NotFound, next)
  {
  }

  /** No call moves the identity counter back. */
  lemma {:induction false} RunKeepsCounter(s: State, ops: seq<Op>)
    ensures Run(s, ops).nextId >= s.nextId
    decreases |ops|
  {
    if |ops| > 0 {
      RunKeepsCounter(Apply(s, ops[0]), ops[1..]);
    }
  }

  /** Identities are never reused: after a delete, whatever calls follow, a
      create gets a different id. */
  lemma CreateAfterDeleteGetsNewId(s: State, id: int, ops: seq<Op>, req: CreateRequest, createdAt: string)
    requires Valid(s)
    requires id in s.store
    ensures var step := Create(Run(Delete(s, id).next, ops), req, createdAt);
            step.result.Ok? ==> step.result.value.id != id
  {
    RunKeepsCounter(Delete(s, id).next, ops);
  }

  /** A second getById returns what the first returned and changes nothing. */
  lemma GetByIdIdempotent(s: State, id: int)
    ensures var first := GetById(s, id);
            GetById(first.next, id) == Step(first.result, first.next)
  {
  }

  /** While the caches are coherent, getById answers exactly what the store holds. */
  lemma GetByIdMatchesStore(s: State, id: int)
    requires Coherent(s)
    ensures GetById(s, id).result == if id in s.store then Ok(s.store[id]) else NotFound
  {
  }

  // ---------------------------------------------------------------------------
  // Invariants over any sequence of calls

  lemma ApplyPreservesValid(s: State, op: Op)
    requires Valid(s)
    ensures Valid(Apply(s, op))
  {
  }

  /** Every call keeps `Valid`, whatever state the caches are in; in particular
      the recent list never exceeds its capacity. */
  lemma {:induction false} RunPreservesValid(s: State, ops: seq<Op>)
    requires Valid(s)
    ensures Valid(Run(s, ops))
    decreases |ops|
  {
    if |ops| > 0 {
      ApplyPreservesValid(s, ops[0]);
      RunPreservesValid(Apply(s, ops[0]), ops[1..]);
    }
  }

  lemma InitIsCoherent()
    ensures Coherent(Init)
  {
  }

  lemma DistinctIdsTail(l: seq<Notification>)
    requires |l| > 0 && DistinctIds(l)
    ensures DistinctIds(l[1..])
    ensures forall k :: 0 <= k < |l[1..]| ==> l[1..][k].id != l[0].id
  {
    forall k | 0 <= k < |l[1..]|
      ensures l[1..][k].id != l[0].id
    {
      assert l[1..][k] == l[k + 1];
    }
  }

  lemma DistinctIdsCons(h: Notification, rest: seq<Notification>)
    requires DistinctIds(rest)
    requires forall m :: 0 <= m < |rest| ==> rest[m].id != h.id
    ensures DistinctIds([h] + rest)
  {
    var r := [h] + rest;
    forall i, j | 0 <= i < |r| && 0 <= j < |r| && r[i].id == r[j].id
      ensures i == j
    {
      if i > 0 && j > 0 {
        assert rest[i - 1].id == rest[j - 1].id;
      }
    }
  }

  /** LREM introduces no id the list did not already lack. */
  lemma RemoveAllAvoidsId(l: seq<Notification>, x: Notification, id: int)
    requires forall k :: 0 <= k < |l| ==> l[k].id != id
    ensures forall m :: 0 <= m < |RedisList.RemoveAll(l, x)| ==> RedisList.RemoveAll(l, x)[m].id != id
  {
    var r := RedisList.RemoveAll(l, x);
    forall m | 0 <= m < |r|
      ensures r[m].id != id
    {
      assert r[m] in l;
    }
  }

  /** LREM keeps the recent list free of repeated ids. */
  lemma {:induction false} RemoveAllKeepsDistinctIds(l: seq<Notification>, x: Notification)
    requires DistinctIds(l)
    ensures DistinctIds(RedisList.RemoveAll(l, x))
    decreases |l|
  {
    if |l| > 0 {
      var tail := l[1..];
      DistinctIdsTail(l);
      RemoveAllKeepsDistinctIds(tail, x);
      var rest := RedisList.RemoveAll(tail, x);
      if l[0] != x {
        RemoveAllAvoidsId(tail, x, l[0].id);
        DistinctIdsCons(l[0], rest);
        assert RedisList.RemoveAll(l, x) == [l[0]] + rest;
      } else {
        assert RedisList.RemoveAll(l, x) == rest;
      }
    }
  }

  lemma CreatePreservesCoherent(s: State, req: CreateRequest, createdAt: string)
    requires Coherent(s)
    ensures Coherent(Create(s, req, createdAt).next)
  {
  }

  lemma GetByIdPreservesCoherent(s: State, id: int)
    requires Coherent(s)
    ensures Coherent(GetById(s, id).next)
  {
  }

  lemma UpdatePreservesCoherent(s: State, id: int, req: UpdateRequest)
    requires Coherent(s)
    ensures Coherent(Update(s, id, req).next)
  {
  }

  lemma DeletePreservesCoherent(s: State, id: int)
    requires Coherent(s)
    ensures Coherent(Delete(s, id).next)
  {
    if id in s.store && id in s.cache {
      RemoveAllKeepsDistinctIds(s.recent, s.cache[id]);
      var t := Delete(s, id).next;
      forall i | 0 <= i < |t.recent| && t.recent[i].id in t.store
        ensures t.recent[i].id in t.cache && t.cache[t.recent[i].id] == t.recent[i]
      {
        var k :| 0 <= k < |s.recent| && s.recent[k] == t.recent[i];
      }
    }
  }

  lemma ApplyPreservesCoherent(s: State, op: Op)
    requires Coherent(s)
    ensures Coherent(Apply(s, op))
  {
    match op
    case CreateOp(req, createdAt) => CreatePreservesCoherent(s, req, createdAt);
    case GetByIdOp(id) => GetByIdPreservesCoherent(s, id);
    case GetRecentOp =>
    case UpdateOp(id, change) => UpdatePreservesCoherent(s, id, change);
    case DeleteOp(id) => DeletePreservesCoherent(s, id);
  }

  /** Every state the service reaches from empty stores is coherent. */
  lemma {:induction false} RunPreservesCoherent(s: State, ops: seq<Op>)
    requires Coherent(s)
    ensures Coherent(Run(s, ops))
    decreases |ops|
  {
    if |ops| > 0 {
      ApplyPreservesCoherent(s, ops[0]);
      RunPreservesCoherent(Apply(s, ops[0]), ops[1..]);
    }
  }

  // ---------------------------------------------------------------------------
  // Delete and the recent list

  /** While the caches are coherent, deleting a record also drops it from the
      recent list. */
  lemma DeleteClearsRecentWhenCoherent(s: State, id: int)
    requires Coherent(s)
    requires id in s.store
    ensures var next := Delete(s, id).next;
            forall i :: 0 <= i < |next.recent| ==> next.recent[i].id != id
  {
  }

  /** Delete removes recent entries by the value cached under the id. When the
      cache entry for a listed record is missing (evicted by Redis, or removed
      outside the service), deleting the record leaves its entry in the recent
      list: getById answers NotFound while getRecent still returns it. */
  lemma DeleteUncachedKeepsStaleRecent(s: State, id: int, i: int)
    requires Valid(s)
    requires id in s.store && id !in s.cache
    requires 0 <= i < |s.recent| && s.recent[i].id == id
    ensures var next := Delete(s, id).next;
            && id !in next.store
            && GetById(next, id).result == NotFound
            && s.recent[i] in GetRecent(next).result.value
  {
  }

  /** A state that meets the premise: a created record whose cache entry was
      lost. Deleting it leaves the recent list exactly as it was. */
  lemma StaleRecentExample()
    ensures var n := Notification(1, "email", "user@example.com", "Hello", "Welcome!", "2024-01-01T00:00:00");
            var s := State(map[1 := n], 2, map[], [n], []);
            var next := Delete(s, 1).next;
            && Valid(s)
            && 1 !in next.store
            && GetById(next, 1).result == NotFound
            && GetRecent(next).result == Ok([n])
  {
  }

  // ---------------------------------------------------------------------------
  // The recent list under a run of creates

  ghost predicate AllValidCreates(ops: seq<Op>)
  {
    forall i :: 0 <= i < |ops| ==> ops[i].CreateOp? && IsNotificationType(ops[i].req.kind)
  }

  /** The record a create call saves when the store assigns it `id`. */
  function CreatedRecord(id: int, op: Op): Notification
    requires op.CreateOp?
  {
    Notification(id, op.req.kind, op.req.recipient, op.req.subject, op.req.content, op.createdAt)
  }

  /** The records a run of creates saves, newest first, the first receiving
      `firstId`. */
  function NewestFirst(firstId: int, ops: seq<Op>): (r: seq<Notification>)
    requires forall i :: 0 <= i < |ops| ==> ops[i].CreateOp?
    ensures |r| == |ops|
    decreases |ops|
  {
    if |ops| == 0 then []
    else NewestFirst(firstId + 1, ops[1..]) + [CreatedRecord(firstId, ops[0])]
  }

  lemma PrefixOfTrimmed(a: seq<Notification>, b: seq<Notification>, m: nat, len: nat)
    requires m <= |b| && len <= |a| + m
    ensures (a + b[..m])[..len] == (a + b)[..len]
  {
    assert forall i :: 0 <= i < len ==> (a + b[..m])[i] == (a + b)[i];
  }

  lemma AllValidCreatesTail(ops: seq<Op>)
    requires |ops| > 0 && AllValidCreates(ops)
    ensures ops[0].CreateOp? && IsNotificationType(ops[0].req.kind)
    ensures AllValidCreates(ops[1..])
  {
    forall i | 0 <= i < |ops[1..]|
      ensures ops[1..][i].CreateOp? && IsNotificationType(ops[1..][i].req.kind)
    {
      assert ops[1..][i] == ops[i + 1];
    }
  }

  /** One successful create, stated on `Apply`. */
  lemma CreateOpStep(s: State, op: Op)
    requires op.CreateOp? && IsNotificationType(op.req.kind)
    ensures Apply(s, op).recent
              == [CreatedRecord(s.nextId, op)] + s.recent[..Min(|s.recent|, RecentStop)]
    ensures Apply(s, op).nextId == s.nextId + 1
  {
  }

  lemma RunUnfold(s: State, ops: seq<Op>)
    requires |ops| > 0
    ensures Run(s, ops) == Run(Apply(s, ops[0]), ops[1..])
  {
  }

  /** The sequence step of `RecentAfterCreates`: pushing `n` on the trimmed old
      list and then keeping `len` entries is the same as keeping `len` entries of
      the untrimmed one, when the trimmed part covers them. */
  lemma PushedPrefix(older: seq<Notification>, n: Notification, prior: seq<Notification>, m: nat, len: nat)
    requires m <= |prior| && len <= |older| + 1 + m
    ensures (older + ([n] + prior[..m]))[..len] == ((older + [n]) + prior)[..len]
  {
    assert older + ([n] + prior[..m]) == (older + [n]) + prior[..m];
    PrefixOfTrimmed(older + [n], prior, m, len);
  }

  /** One create followed by the rest of the run, in terms of the recent lists alone. */
  lemma RecentAfterCreatesStep(s: State, ops: seq<Op>, t: State, after: seq<Notification>)
    requires |ops| > 0 && AllValidCreates(ops) && |s.recent| <= RecentCapacity
    requires t.recent == [CreatedRecord(s.nextId, ops[0])] + s.recent[..Min(|s.recent|, RecentStop)]
    requires t.nextId == s.nextId + 1
    requires after == (NewestFirst(t.nextId, ops[1..]) + t.recent)[..Min(|t.recent| + |ops[1..]|, RecentCapacity)]
    ensures after == (NewestFirst(s.nextId, ops) + s.recent)[..Min(|s.recent| + |ops|, RecentCapacity)]
  {
    var n := CreatedRecord(s.nextId, ops[0]);
    var older := NewestFirst(s.nextId + 1, ops[1..]);
    assert NewestFirst(s.nextId, ops) == older + [n];
    PushedPrefix(older, n, s.recent, Min(|s.recent|, RecentStop),
                 Min(|s.recent| + |ops|, RecentCapacity));
  }

  /** After a run of successful creates the recent list holds the new records,
      newest first, followed by the head of the old list, cut at ten entries:
      the oldest entries are the ones evicted. */
  lemma {:induction false} RecentAfterCreates(s: State, ops: seq<Op>)
    requires |s.recent| <= RecentCapacity
    requires AllValidCreates(ops)
    ensures Run(s, ops).recent
              == (NewestFirst(s.nextId, ops) + s.recent)[..Min(|s.recent| + |ops|, RecentCapacity)]
    decreases |ops|
  {
    if |ops| > 0 {
      AllValidCreatesTail(ops);
      var t := Apply(s, ops[0]);
      CreateOpStep(s, ops[0]);
      RunUnfold(s, ops);
      RecentAfterCreates(t, ops[1..]);
      RecentAfterCreatesStep(s, ops, t, Run(t, ops[1..]).recent);
    }
  }

  /** Each successful create adds one entry until the list holds ten; from then
      on every create evicts the oldest entry, so the length stays at ten. */
  lemma RecentLengthAfterCreates(s: State, ops: seq<Op>)
    requires |s.recent| <= RecentCapacity
    requires AllValidCreates(ops)
    ensures |Run(s, ops).recent| == Min(|s.recent| + |ops|, RecentCapacity)
  {
    RecentAfterCreates(s, ops);
  }
}
