/**
 The notification service as a sequential state machine. Its state is the
 durable record store (the source of truth) with its identity counter, the
 per-id value cache, the recent-notifications list, and the messages handed to
 the notification topic. Every operation is a pure function from a state to a
 response and the next state.
 */
module NotificationService {
  import opened Notifications
  import RedisList
  import opened Ints

  /** Last index the recent list keeps: it is trimmed to indices 0..9. */
  const RecentStop := 9

  /** Most entries the recent list can hold. */
  const RecentCapacity := RecentStop + 1

  /** A response: a value, or the rejection the service raises as an HTTP status. */
  datatype Result<T> = Ok(value: T) | BadRequest | NotFound

  datatype State = State(
    store: map<int, Notification>,   // the relational store, keyed by id
    nextId: int,                     // the identity the store assigns next
    cache: map<int, Notification>,   // the per-id Redis value entries
    recent: seq<Notification>,       // the Redis recent list, newest first
    published: seq<Notification>)    // records sent to the notification topic, in order

  /** An operation's response together with the state it leaves behind. */
  datatype Step<T> = Step(result: Result<T>, next: State)

  /** Empty stores; the store's identity column starts at 1. */
  const Init := State(map[], 1, map[], [], [])

  /** Well-formedness every operation keeps: store and cache entries sit under
      their own id, ids below the counter are the only ones handed out, and the
      recent list respects its capacity. */
  ghost predicate Valid(s: State)
  {
    && (forall k :: k in s.store ==> k < s.nextId && s.store[k].id == k)
    && (forall k :: k in s.cache ==> s.cache[k].id == k)
    && |s.recent| <= RecentCapacity
    && IdsBelow(s.recent, s.nextId)
  }

  /** create: the type is checked before anything else happens; the record is
      saved under a fresh id, published, pushed on the recent list (trimmed to
      capacity) and cached under its id. */
  function Create(s: State, req: CreateRequest, createdAt: string): (step: Step<Notification>)
    ensures step.result.Ok? <==> req.kind == "email" || req.kind == "sms"
    ensures !step.result.Ok? ==> step == Step(BadRequest, s)
    ensures step.result.Ok? ==>
              var n := step.result.value;
              && n == Notification(s.nextId, req.kind, req.recipient, req.subject, req.content, createdAt)
              && (Valid(s) ==> n.id !in s.store)
              && step.next.store.Keys == s.store.Keys + {n.id}
              && step.next.store[n.id] == n
              && (forall k :: k in s.store && k != n.id ==> step.next.store[k] == s.store[k])
              && step.next.nextId > n.id
              && step.next.cache.Keys == s.cache.Keys + {n.id}
              && step.next.cache[n.id] == n
              && (forall k :: k in s.cache && k != n.id ==> step.next.cache[k] == s.cache[k])
              && step.next.recent == [n] + s.recent[..Min(|s.recent|, RecentStop)]
              && step.next.published == s.published + [n]
    ensures Valid(s) ==> Valid(step.next)
  {
    if !IsNotificationType(req.kind) then
      Step(BadRequest, s)
    else
      var saved := Notification(s.nextId, req.kind, req.recipient, req.subject, req.content, createdAt);
      var pushed := RedisList.LeftPush(s.recent, saved);
      var recent' := RedisList.Range(pushed, 0, RecentStop);
      assert recent' == [saved] + s.recent[..Min(|s.recent|, RecentStop)];
      Step(Ok(saved), State(
        s.store[saved.id := saved],
        s.nextId + 1,
        s.cache[saved.id := saved],
        recent',
        s.published + [saved]))
  }

  /** getById: cache-aside read. A cached value is returned as is; on a miss the
      store is consulted and a record found there is cached. */
  function GetById(s: State, id: int): (step: Step<Notification>)
    ensures id in s.cache ==> step == Step(Ok(s.cache[id]), s)
    ensures id !in s.cache && id in s.store ==>
              && step.result == Ok(s.store[id])
              && step.next == s.(cache := s.cache[id := s.store[id]])
    ensures id !in s.cache && id !in s.store ==> step == Step(NotFound, s)
    ensures step.result.NotFound? <==> id !in s.cache && id !in s.store
    ensures Valid(s) ==> Valid(step.next)
  {
    if id in s.cache then
      Step(Ok(s.cache[id]), s)
    else if id in s.store then
      var n := s.store[id];
      Step(Ok(n), s.(cache := s.cache[id := n]))
    else
      Step(NotFound, s)
  }

  /** getRecent: the head of the recent list, at most its capacity, in order;
      nothing changes. */
  function GetRecent(s: State): (step: Step<seq<Notification>>)
    ensures step.next == s
    ensures step.result.Ok?
    ensures step.result.value == s.recent[..Min(|s.recent|, RecentCapacity)]
    ensures |step.result.value| <= RecentCapacity
    ensures Valid(s) ==> step.result.value == s.recent
  {
    Step(Ok(RedisList.Range(s.recent, 0, RecentStop)), s)
  }

  /** The scan in `update`: the index of the first entry at or after `from`
      whose id is `id`, or -1 when there is none. */
  function FirstIndexById(l: seq<Notification>, id: int, from: nat): (i: int)
    requires from <= |l|
    ensures i == -1 || from <= i < |l|
    ensures i == -1 <==> forall k :: from <= k < |l| ==> l[k].id != id
    ensures i != -1 ==> l[i].id == id && forall k :: from <= k < i ==> l[k].id != id
    decreases |l| - from
  {
    if from == |l| then -1
    else if l[from].id == id then from
    else FirstIndexById(l, id, from + 1)
  }

  /** update: an unknown id is rejected with nothing changed. Otherwise only
      subject and content change; the cache entry is overwritten only if there
      is one; and the first recent entry with this id is replaced where it
      stands. */
  function Update(s: State, id: int, req: UpdateRequest): (step: Step<Notification>)
    ensures id !in s.store ==> step == Step(NotFound, s)
    ensures id in s.store ==>
              step.result.Ok? &&
              var prior := s.store[id];
              var u := step.result.value;
              && u.id == prior.id && u.kind == prior.kind && u.recipient == prior.recipient
              && u.createdAt == prior.createdAt
              && u.subject == req.subject && u.content == req.content
              && step.next.store.Keys == s.store.Keys
              && step.next.store[id] == u
              && (forall k :: k in s.store && k != id ==> step.next.store[k] == s.store[k])
              && step.next.cache.Keys == s.cache.Keys
              && (id in s.cache ==> step.next.cache[id] == u)
              && (forall k :: k in s.cache && k != id ==> step.next.cache[k] == s.cache[k])
              && |step.next.recent| == |s.recent|
              && ((forall k :: 0 <= k < |s.recent| ==> s.recent[k].id != id) ==> step.next.recent == s.recent)
              && (forall i :: 0 <= i < |s.recent| && s.recent[i].id == id
                    && (forall k :: 0 <= k < i ==> s.recent[k].id != id)
                    ==> step.next.recent == s.recent[i := u])
              && step.next.nextId == s.nextId
              && step.next.published == s.published
    ensures Valid(s) ==> Valid(step.next)
  {
    if id !in s.store then
      Step(NotFound, s)
    else
      var existing := s.store[id];
      var updated := existing.(subject := req.subject, content := req.content);
      var cache' := if id in s.cache then s.cache[id := updated] else s.cache;
      var snapshot := RedisList.Range(s.recent, 0, -1);
      var i := FirstIndexById(snapshot, id, 0);
      var recent' := if i == -1 then s.recent else RedisList.SetAt(s.recent, i, updated);
      Step(Ok(updated), s.(store := s.store[id := updated], cache := cache', recent := recent'))
  }

  /** delete: an unknown id is rejected with nothing changed. Otherwise the
      record leaves the store and the cache; the recent list loses every entry
      equal to the value that was cached under the id, and is left alone when
      nothing was cached. */
  function Delete(s: State, id: int): (step: Step<()>)
    ensures id !in s.store ==> step == Step(NotFound, s)
    ensures id in s.store ==>
              && step.result == Ok(())
              && step.next.store.Keys == s.store.Keys - {id}
              && (forall k :: k in step.next.store ==> step.next.store[k] == s.store[k])
              && step.next.cache.Keys == s.cache.Keys - {id}
              && (forall k :: k in step.next.cache ==> step.next.cache[k] == s.cache[k])
              && (id !in s.cache ==> step.next.recent == s.recent)
              && (id in s.cache ==>
                    && (forall i :: 0 <= i < |step.next.recent| ==>
                          step.next.recent[i] in s.recent && step.next.recent[i] != s.cache[id])
                    && (forall i :: 0 <= i < |s.recent| && s.recent[i] != s.cache[id] ==>
                          s.recent[i] in step.next.recent)
                    && multiset(step.next.recent) == multiset(s.recent)[s.cache[id] := 0]
                    && RedisList.IsSubsequence(step.next.recent, s.recent))
              && step.next.nextId == s.nextId
              && step.next.published == s.published
    ensures Valid(s) ==> Valid(step.next)
  {
    if id !in s.store then
      Step(NotFound, s)
    else
      var store' := s.store - {id};
      if id in s.cache then
        var cached := s.cache[id];
        Step(Ok(()), s.(store := store', cache := s.cache - {id},
                        recent := RedisList.RemoveAll(s.recent, cached)))
      else
        Step(Ok(()), s.(store := store'))
  }
}
