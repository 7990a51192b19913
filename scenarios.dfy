/** Sequences of route calls, proved from the routes' contracts alone. */
module Scenarios {
  import opened Common
  import opened Tables
  import opened Store

  /** The counts the scenario below observes, for two registrations to the
      same event. */
  lemma CountsOfTwo(r1: Registration, r2: Registration, id: Id)
    requires r1.eventId == id && r2.eventId == id
    ensures RegistrationCount([], id) == 0
    ensures RegistrationCount([r1], id) == 1
    ensures RegistrationCount([r1, r2], id) == 2
    ensures RegistrationCount(Filter([r1, r2], NotForEvent(id)), id) == 0
  {
    CountAfterAppend([], r1, id);
    assert [] + [r1] == [r1];
    CountAfterAppend([r1], r2, id);
    assert [r1] + [r2] == [r1, r2];
    CountAfterCascade([r1, r2], id, id);
  }

  /** A fresh database holding one event, created by `owner`, and no
      registrations. */
  method OpenEvent(owner: Id, eventForm: Form, now: Timestamp) returns (db: Database, id: Id, o: Outcome)
    requires ReadEventForm(eventForm).Complete() && StoredCapacity(ReadEventForm(eventForm).capacity).Some?
    ensures fresh(db) && db.Valid() && o == Ok
    ensures EventIndex(db.events, id).Some? && db.events[EventIndex(db.events, id).value].staffId == owner
    ensures db.registrations == []
  {
    db := new Database();
    o := db.CreateEvent(Some(owner), eventForm, None, "", now);
    id := db.events[0].id;
    assert EventIndex(db.events, id) == Some(0);
  }

  /** The same student registers twice for an event with no
      registrations: the repeat is refused and the count stays at one. */
  method RegisterRepeated(db: Database, id: Id, form: Form, now: Timestamp)
    returns (outcomes: seq<Outcome>, counts: seq<nat>)
    requires db.Valid() && EventIndex(db.events, id).Some? && db.registrations == []
    requires ReadStudentForm(form).Complete()
    modifies db
    ensures db.Valid() && db.events == old(db.events) && |db.registrations| == 1
    ensures db.registrations[0].eventId == id && db.registrations[0].studentEmail == ReadStudentForm(form).email
    ensures outcomes == [Ok, AlreadyRegistered] && counts == [1, 1]
  {
    var once := db.RegisterEvent(id, form, now);
    ghost var r := db.registrations[0];
    assert db.registrations == [] + [r];
    CountAfterAppend([], r, id);
    var count1 := RegistrationCount(db.registrations, id);

    assert r in db.registrations;
    var again := db.RegisterEvent(id, form, now);
    var count2 := RegistrationCount(db.registrations, id);

    outcomes := [once, again];
    counts := [count1, count2];
  }

  /** A second student, with a different email, registers for the same
      event: accepted, and the count goes to two. */
  method RegisterAnother(db: Database, id: Id, form: Form, now: Timestamp) returns (o: Outcome, count: nat)
    requires db.Valid() && EventIndex(db.events, id).Some? && |db.registrations| == 1
    requires db.registrations[0].eventId == id && db.registrations[0].studentEmail != ReadStudentForm(form).email
    requires ReadStudentForm(form).Complete()
    modifies db
    ensures db.Valid() && db.events == old(db.events) && |db.registrations| == 2
    ensures db.registrations[0].eventId == id && db.registrations[1].eventId == id
    ensures o == Ok && count == 2
  {
    ghost var r1 := db.registrations[0];
    assert db.registrations == [r1];
    o := db.RegisterEvent(id, form, now);
    ghost var r2 := db.registrations[1];
    assert db.registrations == [r1, r2];
    CountsOfTwo(r1, r2, id);
    count := RegistrationCount(db.registrations, id);
  }

  /** The owner deletes an event holding the only two registrations: both
      go with it. */
  method DeleteWithTwo(db: Database, owner: Id, id: Id) returns (o: Outcome, count: nat)
    requires db.Valid() && OwnsEvent(db.events, Some(owner), EventIndex(db.events, id))
    requires |db.registrations| == 2 && db.registrations[0].eventId == id && db.registrations[1].eventId == id
    modifies db
    ensures db.Valid() && o == Ok && count == 0
  {
    ghost var full := db.registrations;
    assert full == [full[0], full[1]];
    CountsOfTwo(full[0], full[1], id);
    o := db.DeleteEvent(Some(owner), id);
    count := RegistrationCount(db.registrations, id);
  }

  /** Create an event, register a student, register the same student
      again, register a second student, then delete the event: the repeat
      is refused, and the delete takes both registrations with it. The
      forms are any that pass validation, the two students' emails
      differing. `counts` holds the event's registration count after each
      step. */
  method RegisterTwiceThenDelete(owner: Id, eventForm: Form, first: Form, second: Form, now: Timestamp)
    returns (outcomes: seq<Outcome>, counts: seq<nat>)
    requires ReadEventForm(eventForm).Complete() && StoredCapacity(ReadEventForm(eventForm).capacity).Some?
    requires ReadStudentForm(first).Complete() && ReadStudentForm(second).Complete()
    requires ReadStudentForm(first).email != ReadStudentForm(second).email
    ensures outcomes == [Ok, Ok, AlreadyRegistered, Ok, Ok]
    ensures counts == [0, 1, 1, 2, 0]
  {
    var db, id, created := OpenEvent(owner, eventForm, now);
    var count0 := RegistrationCount(db.registrations, id);

    var repeated, middle := RegisterRepeated(db, id, first, now);
    var other, count3 := RegisterAnother(db, id, second, now);

    var deleted, count4 := DeleteWithTwo(db, owner, id);

    outcomes := [created, repeated[0], repeated[1], other, deleted];
    counts := [count0, middle[0], middle[1], count3, count4];
  }

  /** A staff member who has just signed up can log in with the same
      username and password, given that check_password_hash accepts what
      generate_password_hash produced. */
  method SignupThenLogin(form: Form, hash: string -> string, check: (string, string) -> bool, now: Timestamp)
    returns (signup: Outcome, login: LoginResult)
    requires forall p :: check(hash(p), p)
    ensures ReadStaffForm(form).Complete() ==> signup == Ok && login.LoggedIn?
    ensures !ReadStaffForm(form).Complete() ==> signup == MissingFields
  {
    var db := new Database();
    signup := db.StaffRegister(form, hash, now);
    if signup == Ok {
      assert db.staff[0] in db.staff;
    }
    login := db.Login(form, check);
  }
}
