/**
 The notification record kept by the service, the two requests that create and
 change it, and the whitelist of notification types.
 */
module Notifications {

  /** A persisted notification. `kind` is the entity's `type` column (`type` is
      a Dafny keyword). `id` is the store-assigned identity and `createdAt` the
      ISO-8601 local date-time text fixed at creation, treated here as opaque. */
  datatype Notification = Notification(
    id: int,
    kind: string,
    recipient: string,
    subject: string,
    content: string,
    createdAt: string)

  /** What a caller supplies to create a notification: no id, no timestamp. */
  datatype CreateRequest = CreateRequest(
    kind: string,
    recipient: string,
    subject: string,
    content: string)

  /** What a caller supplies to change a notification: only the two mutable fields. */
  datatype UpdateRequest = UpdateRequest(subject: string, content: string)

  /** The accepted notification types, in the order the service lists them. */
  const NotificationTypes: seq<string> := ["email", "sms"]

  /** The whitelist check `create` applies before anything else. */
  predicate IsNotificationType(kind: string)
    ensures IsNotificationType(kind) <==> kind == "email" || kind == "sms"
  {
    kind in NotificationTypes
  }

  /** No two entries of `l` carry the same id. */
  ghost predicate DistinctIds(l: seq<Notification>)
  {
    forall i, j :: 0 <= i < |l| && 0 <= j < |l| && l[i].id == l[j].id ==> i == j
  }

  /** Every entry of `l` carries an id below `bound`. */
  ghost predicate IdsBelow(l: seq<Notification>, bound: int)
  {
    forall i :: 0 <= i < |l| ==> l[i].id < bound
  }
}
