/** The persisted records of the application (the `Event`, `Subscriber` and
    `Message` tables and the `event_subscriber` association table) and the
    constraints the database and the handlers keep on them.

    Row ids are positions: the event with id `k` is `events[k]`, and so on.
    A query's `.first()` is taken to pick the matching row with the lowest
    id.  The queries have no `order_by`, so the database may pick another;
    where the matched columns are unique (email, access code, and titles in
    every store the handlers reach) there is only one candidate anyway. */
module Schema {
  import opened EmailAddress
  import opened AccessCode

  datatype Option<+T> = None | Some(value: T)

  type EventId = nat
  type SubscriberId = nat
  /** A Socket.IO connection (`request.sid`) */
  type ConnId = nat

  datatype Event = Event(title: string, description: string)

  /** `access_code` is a nullable column; `confirmed` defaults to false. */
  datatype Subscriber = Subscriber(email: string, fullName: string, confirmed: bool, accessCode: Option<string>)

  datatype Message = Message(eventId: EventId, content: string, senderId: SubscriberId)

  /** Python truthiness of an optional request field: present and not "". */
  predicate Present(v: Option<string>) {
    v.Some? && v.value != ""
  }

  /** `query.filter(...).first()`: the lowest position whose row satisfies `p`. */
  function FirstWhere<T>(s: seq<T>, p: T -> bool): (r: Option<nat>)
    ensures r.Some? ==> r.value < |s| && p(s[r.value])
    ensures r.Some? ==> forall j :: 0 <= j < r.value ==> !p(s[j])
    ensures r.None? <==> forall j :: 0 <= j < |s| ==> !p(s[j])
  {
    if s == [] then None
    else if p(s[0]) then Some(0)
    else match FirstWhere(s[1..], p)
      case None => None
      case Some(k) => Some(k + 1)
  }

  /** The `unique=True` constraint on `access_code`: NULLs never collide. */
  ghost predicate CodesUnique(subscribers: seq<Subscriber>) {
    forall i, j :: 0 <= i < j < |subscribers| && subscribers[i].accessCode.Some? ==>
      subscribers[i].accessCode != subscribers[j].accessCode
  }

  /** The `unique=True` constraint on `email` */
  ghost predicate EmailsUnique(subscribers: seq<Subscriber>) {
    forall i, j :: 0 <= i < j < |subscribers| ==> subscribers[i].email != subscribers[j].email
  }

  /** No two events share a title: the sync only ever adds new titles. */
  ghost predicate UniqueTitles(events: seq<Event>) {
    forall i, j :: 0 <= i < j < |events| ==> events[i].title != events[j].title
  }

  /** What `subscribe`, the only creator of subscribers, guarantees of each. */
  ghost predicate WellFormedSubscriber(s: Subscriber) {
    && IsValidEmail(s.email)
    && s.fullName != ""
    && s.accessCode.Some? && IsAccessCode(s.accessCode.value)
  }

  /** The invariant of the whole store: the schema's uniqueness and foreign
      key constraints, the shape of every subscriber, and unique titles. */
  ghost predicate Consistent(events: seq<Event>, subscribers: seq<Subscriber>,
                             members: set<(EventId, SubscriberId)>, messages: seq<Message>)
  {
    && (forall i :: 0 <= i < |subscribers| ==> WellFormedSubscriber(subscribers[i]))
    && UniqueTitles(events)
    && CodesUnique(subscribers)
    && EmailsUnique(subscribers)
    && (forall m :: m in members ==> m.0 < |events| && m.1 < |subscribers|)
    && (forall i :: 0 <= i < |messages| ==> messages[i].eventId < |events| && messages[i].senderId < |subscribers|)
  }

  /** How the subscriber table may change between two states: rows are
      never removed, email, name and access code never change, and
      `confirmed` never goes from true back to false. */
  ghost predicate SubscribersEvolve(before: seq<Subscriber>, after: seq<Subscriber>) {
    && |before| <= |after|
    && forall i :: 0 <= i < |before| ==>
         && after[i].email == before[i].email
         && after[i].fullName == before[i].fullName
         && after[i].accessCode == before[i].accessCode
         && (before[i].confirmed ==> after[i].confirmed)
  }

  /** Any sequence of handler calls keeps the subscriber table evolving. */
  lemma SubscribersEvolveTransitive(a: seq<Subscriber>, b: seq<Subscriber>, c: seq<Subscriber>)
    requires SubscribersEvolve(a, b) && SubscribersEvolve(b, c)
    ensures SubscribersEvolve(a, c)
  {
  }
}
