/** The request and socket handlers of the application, as methods of one
    in-memory store that stands for the database and for Socket.IO's rooms.
    Each handler is one atomic update of the store. */
module App {
  import opened Schema
  import opened EmailAddress
  import opened AccessCode
  import opened Authorization
  import opened CatalogSync

  /** What `subscribe` answers (HTTP status in the comment). */
  datatype SubscribeOutcome =
    | Subscribed(subscriberId: SubscriberId, eventId: EventId)  // 200, confirmation mail sent
    | InvalidEmail                                                // 400 'Email invalide'
    | NameRequired                                                // 400 'Nom complet requis'
    | FieldsRequired                                              // 400 'Titre et description requis'
    | EventNotFound                                               // 404
    | AlreadySubscribed                                           // 400 'Déjà inscrit à cet événement'
    | CodeCollision  // the new code is already taken: the unique constraint on access_code fails, 500

  /** What `chat` answers: the chat page, or 403 'Accès refusé.' */
  datatype ChatOutcome = ChatPage(eventId: EventId, subscriberId: SubscriberId) | ChatDenied

  /** A `receive_message` emission and the connections it reaches */
  datatype Payload = Notice(text: string) | ChatLine(text: string, senderInitial: char)
  datatype Emission = Emission(recipients: set<ConnId>, payload: Payload)

  const AccessDeniedNotice: string := "Accès refusé"

  /** The first failing input check of `subscribe`, in the order the route
      makes them. */
  function RequestError(email: Option<string>, fullName: Option<string>,
                        title: Option<string>, description: Option<string>): (r: Option<SubscribeOutcome>)
    ensures r.None? <==>
      Present(email) && IsValidEmail(email.value) && Present(fullName) && Present(title) && Present(description)
    ensures r == Some(InvalidEmail) <==> !(Present(email) && IsValidEmail(email.value))
    ensures r == Some(NameRequired) <==> Present(email) && IsValidEmail(email.value) && !Present(fullName)
    ensures r == Some(FieldsRequired) <==>
      Present(email) && IsValidEmail(email.value) && Present(fullName) && !(Present(title) && Present(description))
  {
    if !Present(email) || !IsValidEmail(email.value) then Some(InvalidEmail)
    else if !Present(fullName) then Some(NameRequired)
    else if !Present(title) || !Present(description) then Some(FieldsRequired)
    else None
  }

  /** `Event.query.filter_by(title=title, description=description).first()` */
  function LookupEvent(events: seq<Event>, title: string, description: string): Option<EventId> {
    FirstWhere(events, (e: Event) => e.title == title && e.description == description)
  }

  /** `Subscriber.query.filter_by(email=email).first()` */
  function LookupSubscriber(subscribers: seq<Subscriber>, email: string): Option<SubscriberId> {
    FirstWhere(subscribers, (s: Subscriber) => s.email == email)
  }

  predicate CodeInUse(subscribers: seq<Subscriber>, code: string) {
    exists i :: 0 <= i < |subscribers| && subscribers[i].accessCode == Some(code)
  }

  /** The connections joined to a room; a room nobody joined is empty. */
  function RoomOf(rooms: map<EventId, set<ConnId>>, eventId: EventId): set<ConnId> {
    if eventId in rooms then rooms[eventId] else {}
  }

  /** `request.args.get('access_code') or request.cookies.get('access_code')` */
  function PresentedCode(argCode: Option<string>, cookieCode: Option<string>): Option<string> {
    if Present(argCode) then argCode else cookieCode
  }

  class Store {
    var events: seq<Event>
    var subscribers: seq<Subscriber>
    /** The `event_subscriber` table: (event id, subscriber id) pairs */
    var members: set<(EventId, SubscriberId)>
    var messages: seq<Message>
    /** Socket.IO rooms, keyed by event id */
    var rooms: map<EventId, set<ConnId>>

    ghost predicate Valid()
      reads this
    {
      Consistent(events, subscribers, members, messages)
    }

    /** `db.create_all()` on an empty database */
    constructor ()
      ensures Valid()
      ensures events == [] && subscribers == [] && members == {} && messages == [] && rooms == map[]
    {
      events, subscribers, members, messages, rooms := [], [], {}, [], map[];
    }

    /** `subscribe`.  `draws` are the six positions `random.choices` picks
        when a new subscriber needs a code. */
    method Subscribe(email: Option<string>, fullName: Option<string>,
                     title: Option<string>, description: Option<string>,
                     draws: seq<nat>) returns (r: SubscribeOutcome)
      requires Valid() && IsDraws(draws)
      modifies this
      ensures Valid()
      ensures events == old(events) && messages == old(messages) && rooms == old(rooms)
      ensures SubscribersEvolve(old(subscribers), subscribers)
      ensures RequestError(email, fullName, title, description).Some? ==>
        r == RequestError(email, fullName, title, description).value
      ensures RequestError(email, fullName, title, description).None? ==>
        match LookupEvent(old(events), title.value, description.value)
        case None => r == EventNotFound
        case Some(eventId) =>
          match LookupSubscriber(old(subscribers), email.value)
          case Some(sid) =>
            r == if (eventId, sid) in old(members) then AlreadySubscribed else Subscribed(sid, eventId)
          case None =>
            r == if CodeInUse(old(subscribers), GenerateAccessCode(draws)) then CodeCollision
                 else Subscribed(|old(subscribers)|, eventId)
      ensures !r.Subscribed? ==> subscribers == old(subscribers) && members == old(members)
      ensures r.Subscribed? ==>
        && (r.eventId, r.subscriberId) !in old(members)
        && members == old(members) + {(r.eventId, r.subscriberId)}
        && r.subscriberId <= |old(subscribers)|
      ensures r.Subscribed? && r.subscriberId < |old(subscribers)| ==> subscribers == old(subscribers)
      ensures r.Subscribed? && r.subscriberId == |old(subscribers)| ==>
        subscribers == old(subscribers) + [Subscriber(email.value, fullName.value, false, Some(GenerateAccessCode(draws)))]
    {
      var invalid := RequestError(email, fullName, title, description);
      if invalid.Some? {
        return invalid.value;
      }
      var found := LookupEvent(events, title.value, description.value);
      if found.None? {
        return EventNotFound;
      }
      var eventId := found.value;
      var existing := LookupSubscriber(subscribers, email.value);
      var pending := subscribers;
      var sid: SubscriberId;
      if existing.None? {
        var code := GenerateAccessCode(draws);
        if CodeInUse(subscribers, code) {
          return CodeCollision;
        }
        sid := |subscribers|;
        pending := subscribers + [Subscriber(email.value, fullName.value, false, Some(code))];
      } else {
        sid := existing.value;
      }
      if (eventId, sid) in members {
        return AlreadySubscribed;
      }
      if existing.None? {
        NewSubscriberStaysConsistent(events, subscribers, members, messages, pending[sid]);
      }
      JoinStaysConsistent(events, pending, members, messages, eventId, sid);
      subscribers := pending;
      members := members + {(eventId, sid)};
      r := Subscribed(sid, eventId);
    }

    /** `confirm`.  The event id of the link is not consulted. */
    method Confirm(subscriberId: SubscriberId, eventId: EventId, code: Option<string>) returns (ok: bool)
      requires Valid()
      modifies this
      ensures Valid()
      ensures ok <==> subscriberId < |old(subscribers)| && old(subscribers)[subscriberId].accessCode == code
      ensures ok ==> code.Some?
      ensures subscribers == if ok then old(subscribers)[subscriberId := old(subscribers)[subscriberId].(confirmed := true)]
                             else old(subscribers)
      ensures SubscribersEvolve(old(subscribers), subscribers)
      ensures events == old(events) && members == old(members) && messages == old(messages) && rooms == old(rooms)
    {
      ok := subscriberId < |subscribers| && subscribers[subscriberId].accessCode == code;
      if ok {
        subscribers := subscribers[subscriberId := subscribers[subscriberId].(confirmed := true)];
      }
    }

    /** The gate of `chat`: the event must exist and the presented code
        (query argument, else cookie) must pass the shared predicate. */
    function Chat(eventId: EventId, argCode: Option<string>, cookieCode: Option<string>): (r: ChatOutcome)
      reads this
      ensures r.ChatPage? ==>
        && r.eventId == eventId && eventId < |events|
        && Authorized(subscribers, members, eventId, PresentedCode(argCode, cookieCode), r.subscriberId)
      ensures r.ChatDenied? <==>
        eventId >= |events| || forall sid :: !Authorized(subscribers, members, eventId, PresentedCode(argCode, cookieCode), sid)
    {
      var found := FindAuthorized(subscribers, members, eventId, PresentedCode(argCode, cookieCode));
      if eventId >= |events| || found.None? then ChatDenied else ChatPage(eventId, found.value)
    }

    /** `on_join`: the connection enters the room, with no check at all. */
    method OnJoin(conn: ConnId, eventId: EventId)
      requires Valid()
      modifies this
      ensures Valid()
      ensures rooms == old(rooms)[eventId := RoomOf(old(rooms), eventId) + {conn}]
      ensures events == old(events) && subscribers == old(subscribers)
      ensures members == old(members) && messages == old(messages)
    {
      rooms := rooms[eventId := RoomOf(rooms, eventId) + {conn}];
    }

    /** `handle_send_message` from connection `conn` */
    method SendMessage(conn: ConnId, eventId: EventId, content: string, code: Option<string>) returns (out: Emission)
      requires Valid()
      modifies this
      ensures Valid()
      ensures events == old(events) && subscribers == old(subscribers)
      ensures members == old(members) && rooms == old(rooms)
      ensures match FindAuthorized(subscribers, members, eventId, code)
        case None =>
          messages == old(messages) && out == Emission({conn}, Notice(AccessDeniedNotice))
        case Some(sid) =>
          && messages == old(messages) + [Message(eventId, content, sid)]
          && out == Emission(RoomOf(rooms, eventId), ChatLine(content, subscribers[sid].fullName[0]))
    {
      var sender := FindAuthorized(subscribers, members, eventId, code);
      if sender.None? {
        return Emission({conn}, Notice(AccessDeniedNotice));
      }
      var sid := sender.value;
      messages := messages + [Message(eventId, content, sid)];
      out := Emission(RoomOf(rooms, eventId), ChatLine(content, subscribers[sid].fullName[0]));
    }

    /** The body of the row loop: a row too short is skipped; otherwise the
        row's event is merged into the table. */
    method SyncRow(row: seq<string>)
      modifies this
      ensures events == ApplyRow(old(events), row)
      ensures subscribers == old(subscribers) && members == old(members)
      ensures messages == old(messages) && rooms == old(rooms)
    {
      var parsed := ParseRow(row);
      if parsed.None? {
        return;
      }
      UpsertEvent(parsed.value);
    }

    /** The first event with the title gets the new description, or, when
        there is none, the event is added. */
    method UpsertEvent(ev: Event)
      modifies this
      ensures events == Upsert(old(events), ev)
      ensures subscribers == old(subscribers) && members == old(members)
      ensures messages == old(messages) && rooms == old(rooms)
    {
      var found := TitleIndex(events, ev.title);
      if found.Some? {
        var k := found.value;
        events := events[k := events[k].(description := ev.description)];
      } else {
        events := events + [ev];
      }
    }

    /** The row loop of `sync_events_with_csv`, over the rows of the sheet
        including its header. */
    method SyncEvents(rows: seq<seq<string>>)
      requires Valid()
      modifies this
      ensures Valid()
      ensures events == SyncRows(old(events), DataRows(rows))
      ensures subscribers == old(subscribers) && members == old(members)
      ensures messages == old(messages) && rooms == old(rooms)
    {
      if rows == [] {
        // `next(csv_reader)` raises StopIteration; the handler logs it
        return;
      }
      var i := 1;
      while i < |rows|
        invariant 1 <= i <= |rows|
        invariant SyncRows(events, rows[i..]) == SyncRows(old(events), rows[1..])
        invariant |old(events)| <= |events|
        invariant subscribers == old(subscribers) && members == old(members)
        invariant messages == old(messages) && rooms == old(rooms)
      {
        ghost var before := events;
        SyncRow(rows[i]);
        ApplyRowMeaning(before, rows[i]);
        SyncRowsStep(before, rows, i);
        i := i + 1;
      }
      assert rows[i..] == [];
      SyncPreservesUniqueTitles(old(events), rows[1..]);
      MoreEventsStayConsistent(old(events), events, subscribers, members, messages);
    }
  }

  /** A subscriber with a fresh email and a fresh code, shaped as
      `subscribe` creates it, can be appended. */
  lemma NewSubscriberStaysConsistent(events: seq<Event>, subscribers: seq<Subscriber>,
                                     members: set<(EventId, SubscriberId)>, messages: seq<Message>,
                                     sub: Subscriber)
    requires Consistent(events, subscribers, members, messages)
    requires WellFormedSubscriber(sub)
    requires LookupSubscriber(subscribers, sub.email).None?
    requires !CodeInUse(subscribers, sub.accessCode.value)
    ensures Consistent(events, subscribers + [sub], members, messages)
  {
    var after := subscribers + [sub];
    assert forall i :: 0 <= i < |subscribers| ==> after[i] == subscribers[i];
  }

  /** A membership between an existing event and an existing subscriber can
      be added. */
  lemma JoinStaysConsistent(events: seq<Event>, subscribers: seq<Subscriber>,
                            members: set<(EventId, SubscriberId)>, messages: seq<Message>,
                            eventId: EventId, sid: SubscriberId)
    requires Consistent(events, subscribers, members, messages)
    requires eventId < |events| && sid < |subscribers|
    ensures Consistent(events, subscribers, members + {(eventId, sid)}, messages)
  {
  }

  /** Adding events never breaks the foreign keys of memberships and messages. */
  lemma MoreEventsStayConsistent(events: seq<Event>, events': seq<Event>, subscribers: seq<Subscriber>,
                                 members: set<(EventId, SubscriberId)>, messages: seq<Message>)
    requires Consistent(events, subscribers, members, messages)
    requires |events| <= |events'| && UniqueTitles(events')
    ensures Consistent(events', subscribers, members, messages)
  {
  }

  /** In a reachable store at most one event has a given title, so the
      lookup of `subscribe` finds an event exactly when it has that title and
      description, whatever order the database returns rows in. */
  lemma LookupEventExactly(store: Store, title: string, description: string, k: EventId)
    requires store.Valid()
    ensures LookupEvent(store.events, title, description) == Some(k) <==>
      k < |store.events| && store.events[k] == Event(title, description)
  {
    var r := LookupEvent(store.events, title, description);
    if k < |store.events| && store.events[k] == Event(title, description) {
      assert r.Some?;
      assert store.events[r.value].title == store.events[k].title;
    }
  }

  /** Emails are unique, so the subscriber lookup finds a subscriber exactly
      when that subscriber has the email. */
  lemma LookupSubscriberExactly(store: Store, email: string, sid: SubscriberId)
    requires store.Valid()
    ensures LookupSubscriber(store.subscribers, email) == Some(sid) <==>
      sid < |store.subscribers| && store.subscribers[sid].email == email
  {
    var r := LookupSubscriber(store.subscribers, email);
    if sid < |store.subscribers| && store.subscribers[sid].email == email {
      assert r.Some?;
      assert store.subscribers[r.value].email == store.subscribers[sid].email;
    }
  }

  /** Under the store invariant `chat` and `handle_send_message` admit the
      same requests: a member's event always exists, so the extra event
      check of `chat` never refuses a request the shared gate accepts. */
  lemma ChatAgreesWithSendGate(store: Store, eventId: EventId, argCode: Option<string>, cookieCode: Option<string>)
    requires store.Valid()
    ensures store.Chat(eventId, argCode, cookieCode).ChatPage? <==>
      FindAuthorized(store.subscribers, store.members, eventId, PresentedCode(argCode, cookieCode)).Some?
  {
    var code := PresentedCode(argCode, cookieCode);
    var found := FindAuthorized(store.subscribers, store.members, eventId, code);
    if found.Some? {
      assert (eventId, found.value) in store.members;
    }
  }

  /** Joining asks for no code, so any connection that has joined a room
      receives every message an authorized sender posts to it. */
  method JoinedConnectionHearsRoom(store: Store, listener: ConnId, sender: ConnId,
                                   eventId: EventId, content: string, code: Option<string>)
    returns (out: Emission)
    requires store.Valid()
    requires FindAuthorized(store.subscribers, store.members, eventId, code).Some?
    modifies store
    ensures store.Valid()
    ensures listener in out.recipients && out.payload.ChatLine?
  {
    store.OnJoin(listener, eventId);
    out := store.SendMessage(sender, eventId, content, code);
  }
}
