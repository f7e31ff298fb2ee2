/** The chat gate: the query that `chat` and `handle_send_message` both run
    to find the subscriber a request speaks for.  A subscriber passes it for
    an event and a presented code when it is registered to that event, its
    stored access code equals the presented one, and it has confirmed.

    The presented code is optional.  SQLAlchemy turns a comparison with
    Python's `None` into `IS NULL`, so a missing code matches a subscriber
    whose code is NULL; `Option` equality says the same. */
module Authorization {
  import opened Schema
  import opened AccessCode

  /** The three-part condition of the query, for the subscriber with id `sid` */
  predicate Authorized(subscribers: seq<Subscriber>, members: set<(EventId, SubscriberId)>,
                       eventId: EventId, code: Option<string>, sid: SubscriberId)
  {
    && sid < |subscribers|
    && (eventId, sid) in members
    && subscribers[sid].accessCode == code
    && subscribers[sid].confirmed
  }

  /** The query with `.first()`: the authorized subscriber with the lowest id,
      if there is one. */
  function FindAuthorized(subscribers: seq<Subscriber>, members: set<(EventId, SubscriberId)>,
                          eventId: EventId, code: Option<string>): (r: Option<SubscriberId>)
    ensures r.Some? ==> Authorized(subscribers, members, eventId, code, r.value)
    ensures r.Some? ==> forall j :: 0 <= j < r.value ==> !Authorized(subscribers, members, eventId, code, j)
    ensures r.None? <==> forall j :: !Authorized(subscribers, members, eventId, code, j)
  {
    FindAuthorizedFrom(subscribers, members, eventId, code, 0)
  }

  function FindAuthorizedFrom(subscribers: seq<Subscriber>, members: set<(EventId, SubscriberId)>,
                              eventId: EventId, code: Option<string>, from: nat): (r: Option<SubscriberId>)
    ensures r.Some? ==> from <= r.value && Authorized(subscribers, members, eventId, code, r.value)
    ensures r.Some? ==> forall j :: from <= j < r.value ==> !Authorized(subscribers, members, eventId, code, j)
    ensures r.None? <==> forall j :: from <= j ==> !Authorized(subscribers, members, eventId, code, j)
    decreases |subscribers| - from
  {
    if from >= |subscribers| then None
    else if Authorized(subscribers, members, eventId, code, from) then Some(from)
    else FindAuthorizedFrom(subscribers, members, eventId, code, from + 1)
  }

  /** Because access codes are unique, at most one subscriber passes the gate
      for a given event and code, so `.first()` is the only candidate. */
  lemma AuthorizedUnique(subscribers: seq<Subscriber>, members: set<(EventId, SubscriberId)>,
                         eventId: EventId, code: Option<string>, a: SubscriberId, b: SubscriberId)
    requires CodesUnique(subscribers)
    requires code.Some?
    requires Authorized(subscribers, members, eventId, code, a)
    requires Authorized(subscribers, members, eventId, code, b)
    ensures a == b
  {
  }

  /** With unique codes the query finds a subscriber exactly when that
      subscriber passes the gate. */
  lemma FindAuthorizedExactly(subscribers: seq<Subscriber>, members: set<(EventId, SubscriberId)>,
                              eventId: EventId, code: Option<string>, sid: SubscriberId)
    requires CodesUnique(subscribers)
    requires code.Some?
    ensures FindAuthorized(subscribers, members, eventId, code) == Some(sid)
        <==> Authorized(subscribers, members, eventId, code, sid)
  {
    var r := FindAuthorized(subscribers, members, eventId, code);
    if Authorized(subscribers, members, eventId, code, sid) {
      AuthorizedUnique(subscribers, members, eventId, code, r.value, sid);
    }
  }

  /** When every subscriber holds a code, a request without one is refused. */
  lemma MissingCodeRefused(subscribers: seq<Subscriber>, members: set<(EventId, SubscriberId)>, eventId: EventId)
    requires forall i :: 0 <= i < |subscribers| ==> subscribers[i].accessCode.Some?
    ensures FindAuthorized(subscribers, members, eventId, None) == None
  {
  }
}
