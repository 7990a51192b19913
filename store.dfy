/** The application's routes over the `staff`, `events` and `registrations`
    collections. Each route checks its inputs against the tables and then
    inserts, updates or deletes; every rejection leaves the tables as they
    were. The staff session is passed in as the identifier it holds. */
module Store {
  import opened Common
  import opened Uploads
  import opened Tables

  /** How a route ends, in place of its flash message and redirect. */
  datatype Outcome =
    | Ok                 // the operation took effect
    | LoginRequired      // no staff member in the session: sent to login
    | NotFound           // "Event not found" / "Invalid event ID"
    | MissingFields      // "All fields are required"
    | AlreadyRegistered  // "You are already registered for this event"
    | EmailTaken         // "Email already registered"
    | UsernameTaken      // "Username already taken"
    | Unauthorized       // not the event's owner (HTTP 403 on delete)
    | BadImage           // "Invalid image format"
    | ServerError        // an exception no handler catches (HTTP 500)

  /** What a login attempt puts in the session. */
  datatype LoginResult =
    | LoggedIn(staffId: Id, staffName: string)
    | MissingCredentials
    | BadCredentials

  /** One line of the staff dashboard: an event and its registration count. */
  datatype EventRow = EventRow(event: Event, registrationsCount: nat)

  /** The session holds a staff member who owns the event at `index`. */
  predicate OwnsEvent(events: seq<Event>, session: Option<Id>, index: Option<nat>) {
    session.Some? && index.Some? && index.value < |events| && events[index.value].staffId == session.value
  }

  class Database {
    var staff: seq<Staff>
    var events: seq<Event>
    var registrations: seq<Registration>
    /** The identifier the next inserted document receives. */
    var nextId: Id

    ghost predicate Valid()
      reads this
    {
      Consistent(staff, events, registrations, nextId)
    }

    constructor ()
      ensures Valid()
      ensures staff == [] && events == [] && registrations == []
    {
      staff, events, registrations, nextId := [], [], [], 0;
    }

    /** register_event (POST): a student signs up for an event. */
    method RegisterEvent(eventId: Id, form: Form, now: Timestamp) returns (o: Outcome)
      requires Valid()
      modifies this
      ensures Valid()
      ensures staff == old(staff) && events == old(events)
      ensures var found, f := EventIndex(events, eventId).Some?, ReadStudentForm(form);
        && (o == NotFound <==> !found)
        && (o == MissingFields <==> found && !f.Complete())
        && (o == AlreadyRegistered <==> found && f.Complete() && Registered(old(registrations), eventId, f.email))
        && (o == Ok <==> found && f.Complete() && !Registered(old(registrations), eventId, f.email))
      ensures o != Ok ==> registrations == old(registrations) && nextId == old(nextId)
      ensures o == Ok ==>
        var f := ReadStudentForm(form);
        && registrations == old(registrations) + [Registration(old(nextId), eventId, f.name, f.email, f.phone, f.college, now)]
        && nextId == old(nextId) + 1
    {
      if EventIndex(events, eventId).None? {
        return NotFound;
      }
      var f := ReadStudentForm(form);
      if !f.Complete() {
        return MissingFields;
      }
      if Registered(registrations, eventId, f.email) {
        return AlreadyRegistered;
      }
      var r := Registration(nextId, eventId, f.name, f.email, f.phone, f.college, now);
      RegisterKeepsConsistent(staff, events, registrations, nextId, r);
      registrations := registrations + [r];
      nextId := nextId + 1;
      assert Consistent(staff, events, registrations, nextId);
      o := Ok;
    }

    /** staff_register (POST): a new staff account, stored with the hash of
        its password. `hash` stands for generate_password_hash. */
    method StaffRegister(form: Form, hash: string -> string, now: Timestamp) returns (o: Outcome)
      requires Valid()
      modifies this
      ensures Valid()
      ensures events == old(events) && registrations == old(registrations)
      ensures var f := ReadStaffForm(form);
        && (o == MissingFields <==> !f.Complete())
        && (o == EmailTaken <==> f.Complete() && EmailInUse(old(staff), f.email))
        && (o == UsernameTaken <==> f.Complete() && !EmailInUse(old(staff), f.email) && UsernameInUse(old(staff), f.username))
        && (o == Ok <==> f.Complete() && !EmailInUse(old(staff), f.email) && !UsernameInUse(old(staff), f.username))
      ensures o != Ok ==> staff == old(staff) && nextId == old(nextId)
      ensures o == Ok ==>
        var f := ReadStaffForm(form);
        && staff == old(staff) + [Staff(old(nextId), f.name, f.email, f.username, hash(f.password), f.department, f.phone, now)]
        && nextId == old(nextId) + 1
    {
      var f := ReadStaffForm(form);
      if !f.Complete() {
        return MissingFields;
      }
      if EmailInUse(staff, f.email) {
        return EmailTaken;
      }
      if UsernameInUse(staff, f.username) {
        return UsernameTaken;
      }
      var s := Staff(nextId, f.name, f.email, f.username, hash(f.password), f.department, f.phone, now);
      SignupKeepsConsistent(staff, events, registrations, nextId, s);
      staff := staff + [s];
      nextId := nextId + 1;
      assert Consistent(staff, events, registrations, nextId);
      o := Ok;
    }

    /** staff_login (POST), the credential check: `check` stands for
        check_password_hash. The first staff member with the username is
        the only one, so the login succeeds exactly when some staff member
        has that username and a password the check accepts. */
    function Login(form: Form, check: (string, string) -> bool): (r: LoginResult)
      reads this
      requires Valid()
      ensures var u, p := Stripped(form, "username"), Stripped(form, "password");
        && (r == MissingCredentials <==> u == [] || p == [])
        && (r.LoggedIn? <==> u != [] && p != [] && exists s :: s in staff && s.username == u && check(s.password, p))
        && (r.LoggedIn? ==> exists s :: s in staff && s.username == u && s.id == r.staffId && s.name == r.staffName)
    {
      var u, p := Stripped(form, "username"), Stripped(form, "password");
      if u == [] || p == [] then MissingCredentials
      else match StaffIndex(staff, u)
        case None => BadCredentials
        case Some(i) =>
          OnlyStaffWithUsername(staff, i);
          if check(staff[i].password, p) then LoggedIn(staff[i].id, staff[i].name) else BadCredentials
    }

    /** events_list: the events matching the category and search text,
        newest first. An empty category or search text means no such
        condition. */
    function EventsList(category: string, search: string): (r: seq<Event>)
      reads this
      ensures NewestFirst(r)
      ensures forall e :: multiset(r)[e] == if MatchesQuery(e, category, search) then multiset(events)[e] else 0
      ensures forall e :: e in r <==> e in events && MatchesQuery(e, category, search)
    {
      var matching := Filter(events, QueryFilter(category, search));
      FilterMultiset(events, QueryFilter(category, search));
      var r := SortByDate(matching);
      assert forall e :: e in r <==> e in multiset(r);
      r
    }

    /** create_event (POST). `upload` is the submitted file's name (None
        when no file part was sent) and `savedName` the name it is stored
        under. A capacity outside the 64-bit range makes the insert raise
        uncaught, so nothing is stored. */
    method CreateEvent(session: Option<Id>, form: Form, upload: Option<string>, savedName: string, now: Timestamp)
      returns (o: Outcome)
      requires Valid()
      modifies this
      ensures Valid()
      ensures staff == old(staff) && registrations == old(registrations)
      ensures var f := ReadEventForm(form);
        var badImage := HasUpload(upload) && !AllowedFile(upload.value);
        && (o == LoginRequired <==> session.None?)
        && (o == MissingFields <==> session.Some? && !f.Complete())
        && (o == BadImage <==> session.Some? && f.Complete() && badImage)
        && (o == ServerError <==> session.Some? && f.Complete() && !badImage && StoredCapacity(f.capacity).None?)
        && (o == Ok <==> session.Some? && f.Complete() && !badImage && StoredCapacity(f.capacity).Some?)
      ensures o != Ok ==> events == old(events) && nextId == old(nextId)
      ensures o == Ok ==>
        var f := ReadEventForm(form);
        && events == old(events) + [Event(old(nextId), f.title, f.description, f.venue, f.date, f.time, f.category,
                                          StoredCapacity(f.capacity).value, session.value,
                                          if AcceptsUpload(upload) then Some(savedName) else None, now, now)]
        && nextId == old(nextId) + 1
    {
      if session.None? {
        return LoginRequired;
      }
      var f := ReadEventForm(form);
      if !f.Complete() {
        return MissingFields;
      }
      if HasUpload(upload) && !AllowedFile(upload.value) {
        return BadImage;
      }
      var capacity := StoredCapacity(f.capacity);
      if capacity.None? {
        return ServerError;
      }
      var image := if AcceptsUpload(upload) then Some(savedName) else None;
      var e := Event(nextId, f.title, f.description, f.venue, f.date, f.time, f.category,
                     capacity.value, session.value, image, now, now);
      CreateKeepsConsistent(staff, events, registrations, nextId, e);
      events := events + [e];
      nextId := nextId + 1;
      assert Consistent(staff, events, registrations, nextId);
      o := Ok;
    }

    /** edit_event (POST): the owner replaces an event's details. A capacity
        outside the 64-bit range makes the update raise inside the `try`,
        which reports "Event not found". */
    method EditEvent(session: Option<Id>, eventId: Id, form: Form, upload: Option<string>, savedName: string, now: Timestamp)
      returns (o: Outcome)
      requires Valid()
      modifies this
      ensures Valid()
      ensures staff == old(staff) && registrations == old(registrations) && nextId == old(nextId)
      ensures var f, i := ReadEventForm(form), EventIndex(old(events), eventId);
        var owner := OwnsEvent(old(events), session, i);
        && (o == LoginRequired <==> session.None?)
        && (o == Unauthorized <==> session.Some? && !owner)
        && (o == MissingFields <==> owner && !f.Complete())
        && (o == NotFound <==> owner && f.Complete() && StoredCapacity(f.capacity).None?)
        && (o == Ok <==> owner && f.Complete() && StoredCapacity(f.capacity).Some?)
      ensures o != Ok ==> events == old(events)
      ensures o == Ok ==>
        var f, i := ReadEventForm(form), EventIndex(old(events), eventId).value;
        events == old(events)[i := Revised(old(events)[i], f, StoredCapacity(f.capacity).value, upload, savedName, now)]
    {
      if session.None? {
        return LoginRequired;
      }
      var i := EventIndex(events, eventId);
      if !OwnsEvent(events, session, i) {
        return Unauthorized;
      }
      var f := ReadEventForm(form);
      if !f.Complete() {
        return MissingFields;
      }
      var capacity := StoredCapacity(f.capacity);
      if capacity.None? {
        return NotFound;
      }
      var e := Revised(events[i.value], f, capacity.value, upload, savedName, now);
      EditKeepsConsistent(staff, events, registrations, nextId, i.value, e);
      events := events[i.value := e];
      assert Consistent(staff, events, registrations, nextId);
      o := Ok;
    }

    /** delete_event: the owner removes an event, and with it every
        registration for it. */
    method DeleteEvent(session: Option<Id>, eventId: Id) returns (o: Outcome)
      requires Valid()
      modifies this
      ensures Valid()
      ensures staff == old(staff) && nextId == old(nextId)
      ensures var i := EventIndex(old(events), eventId);
        && (o == LoginRequired <==> session.None?)
        && (o == Unauthorized <==> session.Some? && !OwnsEvent(old(events), session, i))
        && (o == Ok <==> OwnsEvent(old(events), session, i))
      ensures o != Ok ==> events == old(events) && registrations == old(registrations)
      ensures o == Ok ==>
        var i := EventIndex(old(events), eventId).value;
        && events == old(events)[..i] + old(events)[i + 1..]
        && registrations == Filter(old(registrations), NotForEvent(eventId))
      ensures o == Ok ==> forall e :: e in events <==> e in old(events) && e.id != eventId
    {
      if session.None? {
        return LoginRequired;
      }
      var i := EventIndex(events, eventId);
      if !OwnsEvent(events, session, i) {
        return Unauthorized;
      }
      RemoveKeepsOthers(events, i.value);
      DeleteKeepsConsistent(staff, events, registrations, nextId, i.value);
      events := events[..i.value] + events[i.value + 1..];
      registrations := Filter(registrations, NotForEvent(eventId));
      assert Consistent(staff, events, registrations, nextId);
      o := Ok;
    }

    /** staff_dashboard and my_events: the session's events, newest first,
        each with the number of registrations for it. */
    method Dashboard(session: Option<Id>) returns (o: Outcome, rows: seq<EventRow>)
      ensures session.None? ==> o == LoginRequired && rows == []
      ensures session.Some? ==>
        var owned := StaffEvents(events, session.value);
        && o == Ok
        && |rows| == |owned|
        && forall k :: 0 <= k < |rows| ==>
             rows[k].event == owned[k] && rows[k].registrationsCount == RegistrationCount(registrations, owned[k].id)
    {
      if session.None? {
        return LoginRequired, [];
      }
      var owned := StaffEvents(events, session.value);
      rows := [];
      var i := 0;
      while i < |owned|
        invariant 0 <= i <= |owned|
        invariant |rows| == i
        invariant forall k :: 0 <= k < i ==>
                    rows[k].event == owned[k] && rows[k].registrationsCount == RegistrationCount(registrations, owned[k].id)
      {
        rows := rows + [EventRow(owned[i], RegistrationCount(registrations, owned[i].id))];
        i := i + 1;
      }
      o := Ok;
    }
  }

  // ----- Lemmas the routes use to keep the invariant -----

  lemma RegisterKeepsConsistent(staff: seq<Staff>, events: seq<Event>, regs: seq<Registration>, nextId: Id, r: Registration)
    requires Consistent(staff, events, regs, nextId)
    requires r.id == nextId && r.Complete() && EventIndex(events, r.eventId).Some?
    requires !Registered(regs, r.eventId, r.studentEmail)
    ensures Consistent(staff, events, regs + [r], nextId + 1)
  {
    RegistrationsUniqueSnoc(regs, r);
  }

  lemma SignupKeepsConsistent(staff: seq<Staff>, events: seq<Event>, regs: seq<Registration>, nextId: Id, s: Staff)
    requires Consistent(staff, events, regs, nextId)
    requires s.id == nextId && s.Complete()
    requires !EmailInUse(staff, s.email) && !UsernameInUse(staff, s.username)
    ensures Consistent(staff + [s], events, regs, nextId + 1)
  {
    StaffUniqueSnoc(staff, s);
  }

  lemma CreateKeepsConsistent(staff: seq<Staff>, events: seq<Event>, regs: seq<Registration>, nextId: Id, e: Event)
    requires Consistent(staff, events, regs, nextId)
    requires e.id == nextId && e.Complete()
    ensures Consistent(staff, events + [e], regs, nextId + 1)
  {
    EventIdsUniqueSnoc(events, e);
    EventIndexSnoc(events, e);
  }

  lemma EditKeepsConsistent(staff: seq<Staff>, events: seq<Event>, regs: seq<Registration>, nextId: Id, i: nat, e: Event)
    requires Consistent(staff, events, regs, nextId)
    requires i < |events| && e.id == events[i].id && e.Complete()
    ensures Consistent(staff, events[i := e], regs, nextId)
  {
    ReplaceKeepsIds(events, i, e);
  }

  lemma DeleteKeepsConsistent(staff: seq<Staff>, events: seq<Event>, regs: seq<Registration>, nextId: Id, i: nat)
    requires Consistent(staff, events, regs, nextId) && i < |events|
    ensures Consistent(staff, events[..i] + events[i + 1..], Filter(regs, NotForEvent(events[i].id)), nextId)
  {
    RemoveKeepsOthers(events, i);
    FilterKeepsRegistrationsUnique(regs, NotForEvent(events[i].id));
  }

  lemma RegistrationsUniqueSnoc(regs: seq<Registration>, r: Registration)
    requires RegistrationsUnique(regs) && !Registered(regs, r.eventId, r.studentEmail)
    requires forall x :: x in regs ==> x.id < r.id
    ensures RegistrationsUnique(regs + [r])
  {
    var s := regs + [r];
    forall i, j | 0 <= i < j < |s| ensures Unlike(s[i], s[j]) {
      if j == |regs| {
        assert s[i] in regs;
      }
    }
  }

  lemma StaffUniqueSnoc(staff: seq<Staff>, s: Staff)
    requires StaffUnique(staff) && !EmailInUse(staff, s.email) && !UsernameInUse(staff, s.username)
    requires forall x :: x in staff ==> x.id < s.id
    ensures StaffUnique(staff + [s])
  {
    var t := staff + [s];
    forall i, j | 0 <= i < j < |t|
      ensures t[i].id != t[j].id && t[i].email != t[j].email && t[i].username != t[j].username
    {
      if j == |staff| {
        assert t[i] in staff;
      }
    }
  }

  lemma EventIdsUniqueSnoc(events: seq<Event>, e: Event)
    requires EventIdsUnique(events) && forall x :: x in events ==> x.id < e.id
    ensures EventIdsUnique(events + [e])
  {
    var t := events + [e];
    forall i, j | 0 <= i < j < |t| ensures t[i].id != t[j].id {
      if j == |events| {
        assert t[i] in events;
      }
    }
  }

  /** An identifier found before an append is still found after it. */
  lemma EventIndexSnoc(events: seq<Event>, e: Event)
    ensures forall id :: EventIndex(events, id).Some? ==> EventIndex(events + [e], id).Some?
  {
    forall id | EventIndex(events, id).Some? ensures EventIndex(events + [e], id).Some? {
      var k := EventIndex(events, id).value;
      assert (events + [e])[k].id == id;
    }
  }

  /** Replacing an event by one with the same identifier keeps every
      identifier findable and the identifiers distinct. */
  lemma ReplaceKeepsIds(events: seq<Event>, i: nat, e: Event)
    requires i < |events| && e.id == events[i].id && EventIdsUnique(events)
    ensures EventIdsUnique(events[i := e])
    ensures forall id :: EventIndex(events, id).Some? ==> EventIndex(events[i := e], id).Some?
  {
    var t := events[i := e];
    forall id | EventIndex(events, id).Some? ensures EventIndex(t, id).Some? {
      var k := EventIndex(events, id).value;
      assert t[k].id == id;
    }
  }

  /** delete_one on a unique identifier: the other events stay, in order,
      and remain findable. */
  lemma RemoveKeepsOthers(events: seq<Event>, i: nat)
    requires i < |events| && EventIdsUnique(events)
    ensures var t := events[..i] + events[i + 1..];
      && EventIdsUnique(t)
      && (forall e :: e in t <==> e in events && e.id != events[i].id)
      && (forall id :: id != events[i].id && EventIndex(events, id).Some? ==> EventIndex(t, id).Some?)
  {
    var t := events[..i] + events[i + 1..];
    assert forall k :: 0 <= k < |t| ==> t[k] == if k < i then events[k] else events[k + 1];
    forall e | e in events && e.id != events[i].id ensures e in t {
      var k :| 0 <= k < |events| && events[k] == e;
      assert t[if k < i then k else k - 1] == e;
    }
    forall id | id != events[i].id && EventIndex(events, id).Some? ensures EventIndex(t, id).Some? {
      var k := EventIndex(events, id).value;
      assert t[if k < i then k else k - 1].id == id;
    }
  }

  /** With usernames unique, the first staff member with a username is the
      only one. */
  lemma OnlyStaffWithUsername(staff: seq<Staff>, i: nat)
    requires StaffUnique(staff) && i < |staff|
    ensures forall s :: s in staff && s.username == staff[i].username ==> s == staff[i]
  {
  }
}
