# Notification service: a Dafny model

The service keeps notification records in three places. The relational store is the source of truth and assigns identities. A Redis value entry caches each record under its id. A Redis list holds the ten most recent notifications, newest first. The service also sends each new record to a message topic.

This project models the service's five operations as one sequential state machine:

- `create` checks the type against the whitelist `{"email", "sms"}`.
- `getById` is a cache-aside read.
- `getRecent` reads the head of the recent list.
- `update` changes subject and content only.
- `delete` evicts the record.

The state (`NotificationService.State`) has five parts:

- the store, as a map from id to record;
- the identity counter;
- the per-id cache, as a map;
- the recent list, as a sequence;
- the records published to the topic, in order.

Each operation is a pure function. It returns a `Step`: a response (`Ok(value)`, `BadRequest` or `NotFound`) and the next state.

Files:

- `notification.dfy` (module `Notifications`): the `Notification` entity and the create and update requests. The entity's `type` column is the field `kind`, because `type` is a Dafny keyword. The file also holds the type whitelist.
- `ints.dfy` (module `Ints`): `Min` and `Max` on integers, shared by the list commands and the service.
- `redis_list.dfy` (module `RedisList`): the Redis list commands the service issues, as functions on sequences:
  - LPUSH;
  - LRANGE and LTRIM, with Redis's inclusive, negative-from-the-tail indices;
  - LSET;
  - LREM with count 0.
- `service.dfy` (module `NotificationService`): the state, the well-formedness predicate `Valid`, and the five operations.
- `properties.dfy` (module `ServiceProperties`): properties that span several calls:
  - read-after-write round trips;
  - invariants kept over any sequence of calls (`Run`);
  - what `delete` does to the recent list.

How `delete` treats the recent list follows the code as written. It removes, by value, the entries equal to the value cached under the id, and only if the cache held one. When the cache agrees with the store, this removes the deleted record from the list; `Coherent` is that agreement. It holds in every state the service reaches from empty stores (`RunPreservesCoherent`, `InitIsCoherent`). When the cache entry of a listed record is missing, deleting the record leaves its entry in the recent list (`DeleteUncachedKeepsStaleRecent`). This happens once the entry has been lost, for example evicted by Redis or deleted outside the service. `StaleRecentExample` is such a state. The comment above the LREM call (NotificationService.java:164) speaks of updating the specific item of the recent list. The call on the next line removes by the cached value instead, and the model follows the call.

When `delete` finds no cached value, the code still issues LREM, with a null value. The configured JSON serializer turns null into an empty byte string, which matches no list element. The model therefore leaves the list unchanged in that case.

## Model

| member | source | states |
|---|---|---|
| RedisList.LeftPush | src/main/java/com/example/demo/service/NotificationService.java:73 | LPUSH of one element: the list grows by one, the new element is the head, and the old list follows unchanged. |
| RedisList.Range | src/main/java/com/example/demo/service/NotificationService.java:123-124 | LRANGE/LTRIM semantics. The result is never longer than the list. A non-negative window `start..stop` is the clamped slice. `0..-k` is the whole list minus its last k-1 elements, so `0..-1` is the whole list. A stop before the head gives the empty list. |
| RedisList.SetAt | src/main/java/com/example/demo/service/NotificationService.java:131 | LSET replaces exactly the element at the index. Length and every other position are unchanged. |
| RedisList.RemoveAll | src/main/java/com/example/demo/service/NotificationService.java:165 | LREM with count 0. No element equal to the value survives, and every other element does. The multiset of the result is the input's with that value's count set to zero. The result is a subsequence of the input, so order is kept. |
| Notifications.IsNotificationType | src/main/java/com/example/demo/service/NotificationService.java:36-49 | The whitelist accepts a type exactly when it is "email" or "sms". |
| NotificationService.Create | src/main/java/com/example/demo/service/NotificationService.java:45-84 | Succeeds exactly when the type is "email" or "sms". Otherwise it answers BadRequest and store, cache, list and topic are unchanged. On success the record copies type, recipient, subject and content and carries the given timestamp. Its id is the counter's value, which is fresh in a valid state. Store and cache map that id to the record and keep every other entry. The recent list becomes the record followed by at most the first nine old entries. The record is appended to the published messages. `Valid` is kept. |
| NotificationService.GetById | src/main/java/com/example/demo/service/NotificationService.java:86-96 | On a cache hit it returns the cached value and changes nothing. On a miss with the record stored, it returns the stored record and caches it, with nothing else changed. Otherwise it answers NotFound and changes nothing. NotFound happens exactly when the id is in neither map. |
| NotificationService.GetRecent | src/main/java/com/example/demo/service/NotificationService.java:98-101 | Returns the first min(n, 10) entries in order and changes no state. In a valid state that is the whole list. |
| NotificationService.FirstIndexById | src/main/java/com/example/demo/service/NotificationService.java:127-134 | The scan's answer. It is -1 exactly when no entry from `from` on has the id. Otherwise it is an index holding the id, with no earlier match. |
| NotificationService.Update | src/main/java/com/example/demo/service/NotificationService.java:103-143 | Unknown id: NotFound, nothing changed. Otherwise the returned record keeps id, type, recipient and createdAt and takes subject and content from the request. The store holds it under the id, with the other entries unchanged. A cache entry for the id is overwritten, and an absent one stays absent. Only the first recent entry with the id is replaced, at its index. The list's length and every other entry stay. Counter and topic are unchanged, and `Valid` is kept. |
| NotificationService.Delete | src/main/java/com/example/demo/service/NotificationService.java:145-171 | Unknown id: NotFound, nothing changed. Otherwise the id leaves the store and the cache, and the other entries stay. If nothing was cached, the recent list is unchanged. If a value was cached, every list entry equal to it is removed, every other entry stays with its number of copies (multiset equation), and order is kept. `Valid` is kept. |
| ServiceProperties.CreateThenGetById | src/main/java/com/example/demo/service/NotificationService.java:76-90 | A created record is read back by its id from the cache, identical and with no state change. |
| ServiceProperties.UpdateThenGetById | src/main/java/com/example/demo/service/NotificationService.java:115-120 | After an update, getById returns the updated record, whether or not the cache held an entry. |
| ServiceProperties.DeleteThenNotFound | src/main/java/com/example/demo/service/NotificationService.java:145-162 | After a delete, getById, update and delete of the same id all answer NotFound and change nothing. |
| ServiceProperties.RunKeepsCounter | src/main/java/com/example/demo/entity/Notification.java:15-17 | No sequence of calls moves the identity counter back. |
| ServiceProperties.CreateAfterDeleteGetsNewId | src/main/java/com/example/demo/entity/Notification.java:15-17 | The store's identity column never reuses a deleted record's id: after a delete and any sequence of further calls, a successful create gets a different id. |
| ServiceProperties.GetByIdIdempotent | src/main/java/com/example/demo/service/NotificationService.java:86-96 | A repeated getById returns the same answer and leaves the state as the first call left it. |
| ServiceProperties.GetByIdMatchesStore | src/main/java/com/example/demo/service/NotificationService.java:86-96 | While the cache is coherent, getById returns the stored record, or NotFound exactly when the store lacks the id. |
| ServiceProperties.ApplyPreservesValid | src/main/java/com/example/demo/service/NotificationService.java:73-76 | Each of the five calls keeps `Valid`, so the list stays within ten entries. |
| ServiceProperties.RunPreservesValid | src/main/java/com/example/demo/service/NotificationService.java:73-74 | Any sequence of calls from a `Valid` state keeps `Valid`, whether or not the cache is coherent. |
| ServiceProperties.RemoveAllKeepsDistinctIds | src/main/java/com/example/demo/service/NotificationService.java:165 | LREM on a list with distinct ids leaves a list with distinct ids. |
| ServiceProperties.CreatePreservesCoherent | src/main/java/com/example/demo/service/NotificationService.java:67-76 | Create keeps cache, list and store in agreement. |
| ServiceProperties.GetByIdPreservesCoherent | src/main/java/com/example/demo/service/NotificationService.java:92-95 | Populating the cache on a miss keeps the agreement. |
| ServiceProperties.UpdatePreservesCoherent | src/main/java/com/example/demo/service/NotificationService.java:113-135 | Update keeps the agreement. |
| ServiceProperties.DeletePreservesCoherent | src/main/java/com/example/demo/service/NotificationService.java:156-165 | Delete keeps the agreement. |
| ServiceProperties.ApplyPreservesCoherent | src/main/java/com/example/demo/service/NotificationService.java:45-171 | Each of the five calls keeps the agreement. |
| ServiceProperties.RunPreservesCoherent | src/main/java/com/example/demo/service/NotificationService.java:45-171 | Any sequence of calls from a coherent state, the empty one included, ends in a coherent state. |
| ServiceProperties.DeleteClearsRecentWhenCoherent | src/main/java/com/example/demo/service/NotificationService.java:159-165 | While the cache is coherent, after deleting an id no recent entry carries it. |
| ServiceProperties.DeleteUncachedKeepsStaleRecent | src/main/java/com/example/demo/service/NotificationService.java:159-165 | For any valid state with a stored record that is in the recent list but not cached: after the record is deleted, the store lacks it and getById answers NotFound, yet getRecent still returns its entry. |
| ServiceProperties.StaleRecentExample | src/main/java/com/example/demo/service/NotificationService.java:159-165 | A concrete valid state meeting that premise (a created record whose cache entry is gone): delete leaves the recent list as it was. |
| ServiceProperties.RecentLengthAfterCreates | src/main/java/com/example/demo/service/NotificationService.java:73-74 | After k successful creates, a list of n <= 10 entries holds min(n + k, 10) entries. |
| ServiceProperties.RecentAfterCreates | src/main/java/com/example/demo/service/NotificationService.java:73-74 | After k successful creates, the list is the k new records, newest first, followed by the old list, cut at ten entries: the oldest entries are the ones evicted. |

## Left out

- Distributed locking. Create, update and delete each take a Redisson lock with a 10-second lease and release it in `finally`; getById and getRecent take none. The model is sequential, so acquire and release are no-ops. The create lock is keyed by a random UUID and serialises nothing.
- Concurrency and interleavings of calls. The model covers one call at a time. Reads racing writes, and two concurrent updates of one record, are not modelled.
- The clock. The timestamp `LocalDateTime.now()`, formatted as ISO-8601, is the `createdAt` parameter of `Create`, an opaque string.
- The message topic send is fire-and-forget. It is modelled only as appending the saved record to `published`. Delivery and failure are not modelled.
- Identity generation is a counter starting at 1. The 64-bit width of `Long` ids, and overflow, are not modelled.
- Backend failures. Exceptions from MySQL, Redis or the topic are not modelled: every backend call is taken to succeed. A null `range` reply is treated as an empty list.
- Null fields. A null request type is rejected by the whitelist in the source. The model's strings cannot be null.
- Redis value serialisation. Equality of serialised values is modelled as structural equality of `Notification`.
- HTTP routing and status mapping. `BadRequest` and `NotFound` stand for the 400 and 404 statuses.
