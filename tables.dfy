/** The three collections of the `college_events` database as values: the
    records they hold, how a route reads its form, the queries the routes
    run against them, and the invariant every route keeps. */
module Tables {
  import opened Common
  import opened Text
  import opened Uploads

  // ----- Records -----

  /** A document of the `events` collection. */
  datatype Event = Event(
    id: Id,
    title: string,
    description: string,
    venue: string,
    date: string,
    time: string,
    category: string,
    capacity: int,
    staffId: Id,
    image: Option<string>,
    createdAt: Timestamp,
    updatedAt: Timestamp)
  {
    /** The descriptive fields a staff member must fill in. */
    predicate Complete() {
      title != [] && description != [] && venue != [] && date != [] && time != [] && category != []
    }
  }

  /** A document of the `registrations` collection. `eventId` refers to an
      event by identifier only. */
  datatype Registration = Registration(
    id: Id,
    eventId: Id,
    studentName: string,
    studentEmail: string,
    studentPhone: string,
    college: string,
    registeredAt: Timestamp)
  {
    predicate Complete() {
      studentName != [] && studentEmail != [] && studentPhone != [] && college != []
    }
  }

  /** A document of the `staff` collection; `password` holds the hash. */
  datatype Staff = Staff(
    id: Id,
    name: string,
    email: string,
    username: string,
    password: string,
    department: string,
    phone: string,
    createdAt: Timestamp)
  {
    /** The fields signup requires; the stored hash is not the user's text. */
    predicate Complete() {
      name != [] && email != [] && username != [] && department != [] && phone != []
    }
  }

  // ----- Forms -----

  /** A submitted HTML form: field name to text. */
  type Form = map<string, string>

  /** request.form.get(key, default). */
  function Field(form: Form, key: string, default: string): string {
    if key in form then form[key] else default
  }

  /** request.form.get(key, '').strip(). */
  function Stripped(form: Form, key: string): string {
    Trim(Field(form, key, ""))
  }

  /** The four fields of the event registration form, stripped. */
  datatype StudentForm = StudentForm(name: string, email: string, phone: string, college: string) {
    predicate Complete() { name != [] && email != [] && phone != [] && college != [] }
  }

  function ReadStudentForm(form: Form): StudentForm {
    StudentForm(Stripped(form, "student_name"), Stripped(form, "student_email"),
                Stripped(form, "student_phone"), Stripped(form, "college"))
  }

  /** The six fields of the staff signup form, stripped. */
  datatype StaffForm = StaffForm(
    name: string, email: string, username: string, password: string, department: string, phone: string)
  {
    predicate Complete() {
      name != [] && email != [] && username != [] && password != [] && department != [] && phone != []
    }
  }

  function ReadStaffForm(form: Form): StaffForm {
    StaffForm(Stripped(form, "name"), Stripped(form, "email"), Stripped(form, "username"),
              Stripped(form, "password"), Stripped(form, "department"), Stripped(form, "phone"))
  }

  /** The event form shared by create and edit. The six text fields are
      stripped; `capacity` is taken as submitted, "0" when absent. */
  datatype EventForm = EventForm(
    title: string, description: string, venue: string, date: string, time: string,
    category: string, capacity: string)
  {
    predicate Complete() {
      title != [] && description != [] && venue != [] && date != [] && time != []
      && category != [] && capacity != []
    }
  }

  function ReadEventForm(form: Form): EventForm {
    EventForm(Stripped(form, "title"), Stripped(form, "description"), Stripped(form, "venue"),
              Stripped(form, "date"), Stripped(form, "time"), Stripped(form, "category"),
              Field(form, "capacity", "0"))
  }

  // ----- Capacity as stored -----

  /** The range of a BSON 64-bit integer, the widest integer the driver
      encodes; a wider Python int makes it raise OverflowError. */
  const Int64Min: int := -0x8000_0000_0000_0000
  const Int64Max: int := 0x7FFF_FFFF_FFFF_FFFF

  predicate FitsInt64(v: int) {
    Int64Min <= v <= Int64Max
  }

  /** The capacity a write can store: `int(capacity)`, unless int() raises
      ValueError or the value is too wide for BSON. Either way the write
      raises and nothing is stored. */
  function StoredCapacity(text: string): Option<int> {
    match ParseInt(text)
    case Some(v) => if FitsInt64(v) then Some(v) else None
    case None => None
  }

  /** A capacity typed as an integer's decimal digits is stored as that
      integer exactly when it fits in 64 bits. */
  lemma StoredCapacityDecimal(n: int)
    ensures StoredCapacity(Decimal(n)) == if FitsInt64(n) then Some(n) else None
  {
    ParseDecimal(n);
    if FitsInt64(n) {
      NineteenDigits(Magnitude(n));
    }
  }

  /** 2^63 is a number to int() but too wide for the database. */
  lemma OversizedCapacityRefused()
    ensures ParseInt(Decimal(0x8000_0000_0000_0000)) == Some(0x8000_0000_0000_0000)
    ensures StoredCapacity(Decimal(0x8000_0000_0000_0000)) == None
  {
    StoredCapacityDecimal(0x8000_0000_0000_0000);
    NineteenDigits(0x8000_0000_0000_0000);
    ParseDecimal(0x8000_0000_0000_0000);
  }

  // ----- Lookups -----

  /** find_one({'_id': id}) on `events`: the position of the first event
      with that identifier. */
  function EventIndex(events: seq<Event>, id: Id): (r: Option<nat>)
    ensures r.Some? ==> r.value < |events| && events[r.value].id == id
    ensures r.Some? ==> forall j :: 0 <= j < r.value ==> events[j].id != id
    ensures r.None? <==> forall j :: 0 <= j < |events| ==> events[j].id != id
  {
    if events == [] then None
    else if events[0].id == id then Some(0)
    else match EventIndex(events[1..], id)
      case None => None
      case Some(k) => Some(k + 1)
  }

  /** find_one({'event_id': eventId, 'student_email': email}) on
      `registrations` finds a document. */
  predicate Registered(regs: seq<Registration>, eventId: Id, email: string) {
    exists r :: r in regs && r.eventId == eventId && r.studentEmail == email
  }

  predicate EmailInUse(staff: seq<Staff>, email: string) {
    exists s :: s in staff && s.email == email
  }

  predicate UsernameInUse(staff: seq<Staff>, username: string) {
    exists s :: s in staff && s.username == username
  }

  /** find_one({'username': username}) on `staff`: the position of the
      first staff member with that username. */
  function StaffIndex(staff: seq<Staff>, username: string): (r: Option<nat>)
    ensures r.Some? ==> r.value < |staff| && staff[r.value].username == username
    ensures r.Some? ==> forall j :: 0 <= j < r.value ==> staff[j].username != username
    ensures r.None? <==> !UsernameInUse(staff, username)
  {
    if staff == [] then None
    else if staff[0].username == username then Some(0)
    else
      assert forall s :: s in staff && s != staff[0] ==> s in staff[1..];
      match StaffIndex(staff[1..], username)
      case None => None
      case Some(k) => Some(k + 1)
  }

  // ----- Per-event registration counts -----

  function ForEvent(eventId: Id): Registration -> bool {
    (r: Registration) => r.eventId == eventId
  }

  function NotForEvent(eventId: Id): Registration -> bool {
    (r: Registration) => r.eventId != eventId
  }

  /** count_documents({'event_id': eventId}) on `registrations`. */
  function RegistrationCount(regs: seq<Registration>, eventId: Id): nat {
    |Filter(regs, ForEvent(eventId))|
  }

  /** Appending a registration raises its own event's count by one and
      leaves every other event's count alone. */
  lemma CountAfterAppend(regs: seq<Registration>, r: Registration, eventId: Id)
    ensures RegistrationCount(regs + [r], eventId)
              == RegistrationCount(regs, eventId) + (if r.eventId == eventId then 1 else 0)
  {
    FilterAppend(regs, [r], ForEvent(eventId));
    assert [r][1..] == [];
  }

  /** After a cascade delete of `deleted`'s registrations, that event has
      none and every other event keeps exactly the count it had. */
  lemma CountAfterCascade(regs: seq<Registration>, deleted: Id, eventId: Id)
    ensures RegistrationCount(Filter(regs, NotForEvent(deleted)), eventId)
              == if eventId == deleted then 0 else RegistrationCount(regs, eventId)
  {
    var kept := Filter(regs, NotForEvent(deleted));
    var counted := Filter(kept, ForEvent(eventId));
    if eventId != deleted {
      var direct := Filter(regs, ForEvent(eventId));
      FilterMultiset(regs, NotForEvent(deleted));
      FilterMultiset(kept, ForEvent(eventId));
      FilterMultiset(regs, ForEvent(eventId));
      assert multiset(counted) == multiset(direct);
      calc {
        |counted|;
        |multiset(counted)|;
        |multiset(direct)|;
        |direct|;
      }
    }
  }

  /** delete_many({'event_id': deleted}) removes exactly the registrations
      for that event: every other registration stays, as often as it was
      there. */
  lemma CascadeKeepsOthers(regs: seq<Registration>, deleted: Id)
    ensures forall r :: r in Filter(regs, NotForEvent(deleted)) <==> r in regs && r.eventId != deleted
    ensures forall r: Registration :: r.eventId != deleted ==> multiset(Filter(regs, NotForEvent(deleted)))[r] == multiset(regs)[r]
  {
    var kept := Filter(regs, NotForEvent(deleted));
    FilterMultiset(regs, NotForEvent(deleted));
    forall r ensures r in kept <==> r in regs && r.eventId != deleted {
      assert r in kept <==> r in multiset(kept);
      assert r in regs <==> r in multiset(regs);
    }
  }

  // ----- events_list: query and order -----

  /** The filter document events_list builds: category equal to the given
      one when one is given, and, when a search text is given, the title or
      the description containing it regardless of case. */
  predicate MatchesQuery(e: Event, category: string, search: string) {
    && (category != [] ==> e.category == category)
    && (search != [] ==> ContainsIgnoringCase(e.title, search) || ContainsIgnoringCase(e.description, search))
  }

  function QueryFilter(category: string, search: string): Event -> bool {
    (e: Event) => MatchesQuery(e, category, search)
  }

  function OwnedBy(staffId: Id): Event -> bool {
    (e: Event) => e.staffId == staffId
  }

  /** Sorted by `date` descending, as `.sort('date', -1)` returns them. */
  ghost predicate NewestFirst(es: seq<Event>) {
    forall i, j :: 0 <= i < j < |es| ==> AtMost(es[j].date, es[i].date)
  }

  lemma NewestBounded(es: seq<Event>, d: string)
    requires NewestFirst(es) && es != [] && AtMost(es[0].date, d)
    ensures forall e :: e in es ==> AtMost(e.date, d)
  {
    forall e | e in es ensures AtMost(e.date, d) {
      var j :| 0 <= j < |es| && es[j] == e;
      if j > 0 {
        AtMostTransitive(es[j].date, es[0].date, d);
      }
    }
  }

  lemma PrependNewest(x: Event, es: seq<Event>)
    requires NewestFirst(es)
    requires forall e :: e in es ==> AtMost(e.date, x.date)
    ensures NewestFirst([x] + es)
  {
    var r := [x] + es;
    forall i, j | 0 <= i < j < |r| ensures AtMost(r[j].date, r[i].date) {
      if i > 0 {
        assert r[i] == es[i - 1] && r[j] == es[j - 1];
      } else {
        assert r[j] in es;
      }
    }
  }

  /** Places `x` before the first event that is not newer than it. */
  function InsertByDate(x: Event, es: seq<Event>): (r: seq<Event>)
    requires NewestFirst(es)
    ensures NewestFirst(r)
    ensures multiset(r) == multiset(es) + multiset{x}
  {
    if es == [] then [x]
    else if AtMost(es[0].date, x.date) then
      NewestBounded(es, x.date);
      PrependNewest(x, es);
      [x] + es
    else
      var rest := InsertByDate(x, es[1..]);
      InsertBehindHead(x, es, rest);
      [es[0]] + rest
  }

  /** When `x` is older than the head of `es`, the head stays in front of
      the rest with `x` inserted. */
  lemma InsertBehindHead(x: Event, es: seq<Event>, rest: seq<Event>)
    requires NewestFirst(es) && es != [] && !AtMost(es[0].date, x.date)
    requires NewestFirst(rest) && multiset(rest) == multiset(es[1..]) + multiset{x}
    ensures NewestFirst([es[0]] + rest)
    ensures multiset([es[0]] + rest) == multiset(es) + multiset{x}
  {
    AtMostTotal(es[0].date, x.date);
    assert es == [es[0]] + es[1..];
    forall e | e in rest ensures AtMost(e.date, es[0].date) {
      assert e in multiset(rest);
      if e != x {
        assert e in es[1..];
        var j :| 0 <= j < |es[1..]| && es[1..][j] == e;
        assert es[j + 1] == e;
      }
    }
    PrependNewest(es[0], rest);
  }

  /** A stable sort by `date`, newest first: the same events, reordered. */
  function SortByDate(es: seq<Event>): (r: seq<Event>)
    ensures NewestFirst(r)
    ensures multiset(r) == multiset(es)
  {
    if es == [] then []
    else
      assert es == [es[0]] + es[1..];
      InsertByDate(es[0], SortByDate(es[1..]))
  }

  /** The events one staff member owns, newest first: what the dashboard
      and "my events" pages list. */
  function StaffEvents(events: seq<Event>, staffId: Id): (r: seq<Event>)
    ensures NewestFirst(r)
    ensures forall e :: multiset(r)[e] == if e.staffId == staffId then multiset(events)[e] else 0
  {
    FilterMultiset(events, OwnedBy(staffId));
    SortByDate(Filter(events, OwnedBy(staffId)))
  }

  /** The document edit_event leaves behind: its `$set` overwrites the
      descriptive fields, the capacity and `updated_at`, and the image only
      when an acceptable upload came with the form. */
  function Revised(e: Event, f: EventForm, capacity: int, upload: Option<string>, savedName: string, now: Timestamp): (r: Event)
    ensures r.id == e.id && r.staffId == e.staffId && r.createdAt == e.createdAt
    ensures r.image == if AcceptsUpload(upload) then Some(savedName) else e.image
    ensures r.title == f.title && r.description == f.description && r.venue == f.venue
    ensures r.date == f.date && r.time == f.time && r.category == f.category
    ensures r.capacity == capacity && r.updatedAt == now
  {
    e.(title := f.title, description := f.description, venue := f.venue, date := f.date,
       time := f.time, category := f.category, capacity := capacity, updatedAt := now,
       image := if AcceptsUpload(upload) then Some(savedName) else e.image)
  }

  // ----- The invariant -----

  /** No two staff members share an identifier, an email or a username. */
  ghost predicate StaffUnique(staff: seq<Staff>) {
    forall i, j :: 0 <= i < j < |staff| ==>
      staff[i].id != staff[j].id && staff[i].email != staff[j].email && staff[i].username != staff[j].username
  }

  ghost predicate EventIdsUnique(events: seq<Event>) {
    forall i, j :: 0 <= i < j < |events| ==> events[i].id != events[j].id
  }

  /** No two registrations share an identifier, and at most one
      registration per (event, student email) pair. */
  ghost predicate RegistrationsUnique(regs: seq<Registration>) {
    forall i, j :: 0 <= i < j < |regs| ==> Unlike(regs[i], regs[j])
  }

  /** Two registrations with different identifiers and not for the same
      student and event. */
  predicate Unlike(x: Registration, y: Registration) {
    x.id != y.id && (x.eventId != y.eventId || x.studentEmail != y.studentEmail)
  }

  /** What the routes, run one after another, keep true of the database:
      identifiers below the next one to be issued and distinct within each
      collection, staff emails and usernames unique, one registration per
      student and event, every registration's event present, and every
      stored record's required fields non-empty. */
  ghost predicate Consistent(staff: seq<Staff>, events: seq<Event>, regs: seq<Registration>, nextId: Id) {
    && (forall s :: s in staff ==> s.id < nextId && s.Complete())
    && (forall e :: e in events ==> e.id < nextId && e.Complete())
    && (forall r :: r in regs ==> r.id < nextId && r.Complete() && EventIndex(events, r.eventId).Some?)
    && StaffUnique(staff)
    && EventIdsUnique(events)
    && RegistrationsUnique(regs)
  }

  /** In a consistent database each collection's identifiers are distinct:
      a staff identifier held by the session names one staff member. */
  lemma ConsistentIdsDistinct(staff: seq<Staff>, events: seq<Event>, regs: seq<Registration>, nextId: Id)
    requires Consistent(staff, events, regs, nextId)
    ensures forall i, j :: 0 <= i < j < |staff| ==> staff[i].id != staff[j].id
    ensures forall i, j :: 0 <= i < j < |events| ==> events[i].id != events[j].id
    ensures forall i, j :: 0 <= i < j < |regs| ==> regs[i].id != regs[j].id
  {
    assert RegistrationsUnique(regs);
  }

  /** Every registration among `regs` is unlike `r`. */
  ghost predicate NoneLike(r: Registration, regs: seq<Registration>) {
    forall y :: y in regs ==> Unlike(r, y)
  }

  lemma RegistrationsUniqueCons(x: Registration, t: seq<Registration>)
    requires RegistrationsUnique(t) && NoneLike(x, t)
    ensures RegistrationsUnique([x] + t)
  {
    var r := [x] + t;
    forall i, j | 0 <= i < j < |r|
      ensures Unlike(r[i], r[j])
    {
      if i == 0 {
        assert r[j] == t[j - 1] && r[j] in t;
      } else {
        assert r[i] == t[i - 1] && r[j] == t[j - 1];
      }
    }
  }

  lemma RegistrationsUniqueTail(regs: seq<Registration>)
    requires RegistrationsUnique(regs) && regs != []
    ensures RegistrationsUnique(regs[1..]) && NoneLike(regs[0], regs[1..])
  {
    forall y | y in regs[1..] ensures Unlike(regs[0], y) {
      var k :| 0 <= k < |regs[1..]| && regs[1..][k] == y;
      assert regs[k + 1] == y;
    }
  }

  /** Filtering keeps registrations one per student and event. */
  lemma {:induction false} FilterKeepsRegistrationsUnique(regs: seq<Registration>, p: Registration -> bool)
    requires RegistrationsUnique(regs)
    ensures RegistrationsUnique(Filter(regs, p))
  {
    if regs != [] {
      var rest := Filter(regs[1..], p);
      RegistrationsUniqueTail(regs);
      FilterKeepsRegistrationsUnique(regs[1..], p);
      if p(regs[0]) {
        forall y | y in rest ensures Unlike(regs[0], y) {
          var k :| 0 <= k < |rest| && rest[k] == y;
          assert y in regs[1..];
        }
        RegistrationsUniqueCons(regs[0], rest);
      }
    }
  }
}
