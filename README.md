# College event management: a verified model of the routes

The application is a Flask site over a MongoDB database `college_events`
with three collections: `staff`, `events` and `registrations`.
- Students browse events and register for them.
- Staff members sign up, log in, and create, edit and delete their own events.
- Staff see each event's registration count on their dashboard.

This project models those routes as a Dafny class, `Store.Database`. Its
fields are the three collections, held as sequences, and an identifier
counter. Each POST route that writes is a method. It reads its form,
checks it against the tables, and then inserts, updates or deletes. It
returns an `Outcome` in place of the flash message and redirect.
`staff_login` is the function `Login`: it changes no table and returns
what the route puts in the session. Every method keeps the invariant
`Tables.Consistent`:
- identifiers are distinct within each collection;
- staff emails and usernames are unique;
- a student is registered at most once per event;
- every registration names a stored event;
- every stored record has its required fields.

Each method's postcondition states, for every branch, exactly what the
tables become. The pure pieces are functions, with lemmas about them:
- `allowed_file`;
- `str.strip()`;
- ASCII `lower()`;
- the case-insensitive search;
- the date order;
- `int()` on form text.

Files:
- `common.dfy`: `Option`, identifiers, order-preserving filtering (what a query with a filter document returns).
- `text.dfy`: `strip()`, `lower()`, substring search, MongoDB's string order, `int()` and `str()` on integers.
- `uploads.dfy`: the allowed-extension check on upload file names.
- `tables.dfy`: the records, the form readers, lookups, counts, the `events_list` query and sort, the field update `edit_event` applies, and the invariant.
- `store.dfy`: the `Database` class and its routes, with the lemmas showing each route keeps the invariant.
- `scenarios.dfy`: route sequences proved from the routes' contracts alone. One is register, repeat, second student, delete. The other is sign up, then log in.

These are parameters of the model:
- the session, as the staff identifier it holds (`None` when logged out);
- the clock (`now`);
- password hashing (`hash`) and checking (`check`) as functions;
- the uploaded file's name (`upload`), and the name it is stored under (`savedName`).

Two behaviours of the code are worth stating outright:
- The stored capacity is whatever `int()` returns, negative values included, as long as it fits in a BSON 64-bit integer. It is never checked against the number of registrations.
- On the edit page a missing event is reported as unauthorized, not as not found (test_db.py:277-278).

## Model

| member | source | states |
|---|---|---|
| Common.Filter | test_db.py:72 | a collection query returns no more documents than the collection holds, each one stored and each one matching the filter |
| Common.FilterMultiset | test_db.py:72 | the query keeps every matching document exactly as often as it was stored and no other |
| Common.FilterAppend | test_db.py:121-128 | filtering a table with a record appended gives the old filtered table plus that record if it matches |
| Common.FilterSingleton | test_db.py:72 | a one-document table filters to itself or to nothing; with FilterAppend this fixes the query result to the collection's order |
| Text.LeadingSpaceSpec | test_db.py:103 | the whitespace counted at the front is exactly the leading run of `isspace` characters |
| Text.TrailingSpaceSpec | test_db.py:103 | the whitespace dropped at the back is exactly the trailing run of `isspace` characters |
| Text.Trim | test_db.py:103-106 | `strip()`: the text between the leading and the trailing run of whitespace; its properties are the next rows |
| Text.TrimSpec | test_db.py:103-106 | `strip()` returns a slice of its input that neither starts nor ends with whitespace, empty exactly when the input is all whitespace |
| Text.TrimNoop | test_db.py:103-106 | a string with no whitespace at either end is its own `strip()` |
| Text.TrimIdempotent | test_db.py:103-106 | stripping twice is stripping once |
| Text.LowerChar | test_db.py:43 | `lower()` on one character never yields an upper-case ASCII letter |
| Text.SameIgnoringCase | test_db.py:43 | two characters that are equal, or the same ASCII letter in two cases |
| Text.LowerCharEqual | test_db.py:43 | two characters lower-case to the same one exactly when they are the same up to ASCII case |
| Text.LowerCharIdempotent | test_db.py:43 | a lower-cased character is its own lower case |
| Text.Lower | test_db.py:43 | `lower()` keeps the length and lower-cases each character independently |
| Text.LowerEqual | test_db.py:43 | two strings lower-case to the same text exactly when they have the same length and agree position by position up to ASCII case |
| Text.LowerIdempotent | test_db.py:43 | lower-casing twice is lower-casing once |
| Text.Contains | test_db.py:67-70 | the search text matches exactly when it occurs at some position of the field |
| Text.ContainsIgnoringCase | test_db.py:67-70 | the `$options: 'i'` match: the lower-cased search text occurs in the lower-cased field; by LowerEqual, case differences in either are ignored |
| Text.OccursShift | test_db.py:67-70 | moving the search start one character right loses no match when there is none at the start |
| Text.AtMostTotal | test_db.py:72 | any two dates are comparable in MongoDB's string order |
| Text.AtMostTransitive | test_db.py:72 | the string order is transitive |
| Text.AtMostAntisymmetric | test_db.py:72 | two dates each at most the other are equal |
| Text.NumeralDigits | test_db.py:259 | a string `int()` accepts as a numeral holds only digits and underscores |
| Text.NumeralEnds | test_db.py:259 | a numeral starts and ends with a digit |
| Text.DigitCount | test_db.py:259 | the digit characters of a numeral, leading zeros included and underscores not, which CPython's length limit counts |
| Text.ReadableNumeral | test_db.py:259 | a numeral of at most 4300 digits, CPython's default `sys.get_int_max_str_digits()` |
| Text.ParseInt | test_db.py:259 | `int()` on form text: surrounding whitespace dropped, one optional sign, then a numeral of at most 4300 digits; anything else is the ValueError, as None |
| Text.Decimal | test_db.py:259 | `str(n)` for any integer: a minus sign for negatives, then the digits |
| Text.Printable | test_db.py:259 | `str(n)` succeeds: `n` has at most 4300 digits |
| Text.NatDigitsBound | test_db.py:259 | a number below 10^k has at most k digits |
| Text.NineteenDigits | test_db.py:259 | every 64-bit magnitude has at most 19 digits, so every 64-bit integer is printable |
| Text.DigitCountOfDigits | test_db.py:259 | every character of a digit string is counted by the limit |
| Text.NatDigits | test_db.py:259 | `str(n)` of a natural number is a non-empty string of digits |
| Text.NatDigitsValue | test_db.py:259 | reading back the digits of `str(n)` gives `n` |
| Text.DigitsAreNumeral | test_db.py:259 | a non-empty digit string is a numeral `int()` accepts |
| Text.ParseUnsigned | test_db.py:259 | `int()` of a numeral within the digit limit is its value, underscores ignored |
| Text.ParseSigned | test_db.py:259 | `int()` of a minus sign followed by such a numeral is the negated value |
| Text.TooManyDigitsRefused | test_db.py:259 | a numeral of more than 4300 digits is a ValueError, with or without a sign and whatever its value, e.g. 4300 zeros then 5 |
| Text.ParseDecimal | test_db.py:259 | `int(str(n)) == n` for every integer `str()` can print, and `int()` refuses the digits of any other |
| Text.ParseIgnoresSpace | test_db.py:259 | `int()` gives the same result with or without surrounding whitespace |
| Uploads.LastDot | test_db.py:43 | the split point of `rsplit('.', 1)`: absent exactly when there is no dot, otherwise a dot with no dot after it |
| Uploads.Extension | test_db.py:43 | the second half of `rsplit('.', 1)` is the text after some dot and itself holds no dot |
| Uploads.AllowedFile | test_db.py:42-43 | `allowed_file`: the name has a dot, and the text after the last one, lower-cased, is an allowed extension; characterised by AllowedFileIff |
| Uploads.LastDotUnique | test_db.py:43 | a dot with no dot after it is the one `rsplit` splits at |
| Uploads.ExtensionAfterLastDot | test_db.py:43 | the extension `allowed_file` examines is the text after that dot |
| Uploads.AllowedFileIff | test_db.py:42-43 | `allowed_file` holds exactly when some dot has no dot after it and the text after it, lower-cased, is png, jpg, jpeg or gif |
| Uploads.HasUpload | test_db.py:243 | `image and image.filename`: a file part was sent and its filename is not empty |
| Uploads.AcceptsUpload | test_db.py:306 | an upload is stored only when it has a filename and `allowed_file` accepts it |
| Uploads.UpperCaseExtensionAllowed | test_db.py:43 | `poster.PNG` is accepted: the comparison ignores ASCII case |
| Uploads.DoubleExtensionRejected | test_db.py:43 | `poster.png.exe` is refused: only the last extension counts |
| Tables.EventIndex | test_db.py:97 | `find_one` by identifier finds the first event with that identifier, and finds none exactly when no event has it |
| Tables.ReadStudentForm | test_db.py:103-106 | the four registration fields, each read with default `''` and stripped |
| Tables.ReadStaffForm | test_db.py:145-150 | the six signup fields, each read with default `''` and stripped |
| Tables.ReadEventForm | test_db.py:229-235 | the six descriptive event fields stripped, and the capacity read raw with default `'0'` |
| Tables.FitsInt64 | test_db.py:259 | the range of a BSON 64-bit integer, the widest integer the driver stores |
| Tables.StoredCapacity | test_db.py:259 | the capacity a write can store: `int(capacity)` when it parses and fits in 64 bits, otherwise nothing is stored |
| Tables.StoredCapacityDecimal | test_db.py:259 | an integer's decimal text is stored as that integer exactly when the integer fits in 64 bits |
| Tables.OversizedCapacityRefused | test_db.py:259 | 2^63 parses under `int()` but cannot be stored |
| Tables.StaffIndex | test_db.py:190 | `find_one` by username finds the first staff member with that username, and finds none exactly when nobody has it |
| Tables.Registered | test_db.py:112-117 | the duplicate check: some registration has this event identifier and this email |
| Tables.EmailInUse | test_db.py:156 | some staff member has this email |
| Tables.UsernameInUse | test_db.py:160 | some staff member has this username |
| Tables.RegistrationCount | test_db.py:220 | `count_documents({'event_id': id})`: the number of registrations naming the event; its behaviour under inserts and deletes is the next rows |
| Tables.CountAfterAppend | test_db.py:220 | inserting a registration raises its own event's `count_documents` by one and leaves every other event's count unchanged |
| Tables.CountAfterCascade | test_db.py:331 | after the cascade delete the deleted event counts zero registrations and every other event keeps its count |
| Tables.CascadeKeepsOthers | test_db.py:331 | `delete_many` by event identifier keeps exactly the registrations of other events, each as often as before |
| Tables.MatchesQuery | test_db.py:63-70 | the filter document: the category equals the given one when one is given, AND, when a search text is given, the title OR the description contains it ignoring case |
| Tables.QueryFilter | test_db.py:63-70 | the same filter as a function the query applies |
| Tables.InsertByDate | test_db.py:72 | inserting into a newest-first list keeps it newest-first and adds exactly that event |
| Tables.NewestBounded | test_db.py:72 | in a newest-first list every date is at most the first one |
| Tables.PrependNewest | test_db.py:72 | an event at least as new as all others can go in front |
| Tables.InsertBehindHead | test_db.py:72 | an event older than the head is inserted behind it, keeping the order and the contents |
| Tables.SortByDate | test_db.py:72 | `.sort('date', -1)` returns the same events, as a multiset, ordered newest first |
| Tables.StaffEvents | test_db.py:216 | the dashboard's query returns exactly the session's events, newest first |
| Tables.Revised | test_db.py:295-311 | the `$set` overwrites title, description, venue, date, time, category, capacity and updated_at; it replaces the image only for an accepted upload; it keeps id, owner and created_at |
| Tables.Consistent | test_db.py:112-172 | the invariant every route keeps: identifiers issued and distinct within each collection, staff emails and usernames unique, one registration per event and email, every registration's event stored, required fields present |
| Tables.ConsistentIdsDistinct | test_db.py:122-128 | in a consistent database no two staff members, no two events and no two registrations share an identifier |
| Tables.RegistrationsUniqueCons | test_db.py:112-119 | a registration unlike all others (another identifier, another (event, email) pair) can go in front and keep registrations unique |
| Tables.RegistrationsUniqueTail | test_db.py:112-119 | with registrations unique, the first is unlike all the rest |
| Tables.FilterKeepsRegistrationsUnique | test_db.py:331 | deleting registrations never creates a duplicate identifier or (event, email) pair |
| Store.OwnsEvent | test_db.py:277 | the ownership gate: the event exists and its `staff_id` is the session's |
| Store.Database.constructor | test_db.py:20-22 | the database starts with three empty collections, consistent |
| Store.Database.RegisterEvent | test_db.py:93-137 | missing event: NotFound. Then any empty stripped field: MissingFields. Then an existing pair of event and stripped email: AlreadyRegistered. Each rejection leaves every table unchanged. Otherwise exactly one registration with the stripped fields is appended. The invariant is kept |
| Store.Database.StaffRegister | test_db.py:141-177 | an empty stripped field, then a used email, then a used username each reject with the tables unchanged; otherwise one staff record carrying the password's hash is appended; emails and usernames stay unique |
| Store.Database.Login | test_db.py:179-200 | empty username or password gives MissingCredentials. Login succeeds exactly when some staff member has the username and the check accepts the password. The session then receives that member's identifier and name |
| Store.Database.EventsList | test_db.py:57-76 | the result holds exactly the events matching the category (when given) and the search text in title or description (when given), each as often as stored, newest first |
| Store.Database.CreateEvent | test_db.py:224-269 | In order: LoginRequired, MissingFields, BadImage for an upload with a disallowed name, ServerError when `int(capacity)` fails or its value does not fit in a BSON 64-bit integer (the insert then raises). Each leaves the tables unchanged. Otherwise one event is appended: owned by the session, the image set only for an accepted upload, both timestamps `now` |
| Store.Database.EditEvent | test_db.py:271-319 | In order: LoginRequired, Unauthorized unless the session owns the event, MissingFields, NotFound when `int(capacity)` fails or its value does not fit in 64 bits (the update raises inside the `try`). Each leaves the tables unchanged. Otherwise only that event changes, to its revision, and the registrations are untouched |
| Store.Database.DeleteEvent | test_db.py:321-334 | LoginRequired, or Unauthorized unless the session owns the event, with nothing changed. Otherwise only that event is removed, the others keep their order, and exactly its registrations are deleted |
| Store.Database.Dashboard | test_db.py:211-222 | logged out gives LoginRequired. Otherwise one row per owned event, newest first, each with that event's `count_documents` of registrations |
| Store.RegisterKeepsConsistent | test_db.py:112-128 | appending a fresh, complete registration for a stored event, not yet registered under that email, keeps the invariant |
| Store.SignupKeepsConsistent | test_db.py:156-172 | appending a complete staff record whose email and username are unused keeps the invariant |
| Store.CreateKeepsConsistent | test_db.py:252-264 | appending a complete event under a fresh identifier keeps the invariant |
| Store.EditKeepsConsistent | test_db.py:311 | replacing an event by a complete one with the same identifier keeps the invariant |
| Store.DeleteKeepsConsistent | test_db.py:330-331 | removing an event together with its registrations keeps the invariant |
| Store.RegistrationsUniqueSnoc | test_db.py:112-128 | inserting with a fresh identifier, only after the duplicate check, keeps identifiers and (event, email) pairs unique |
| Store.StaffUniqueSnoc | test_db.py:156-172 | inserting with a fresh identifier, only after the email and username checks, keeps identifiers, emails and usernames unique |
| Store.EventIdsUniqueSnoc | test_db.py:252 | a new event's fresh identifier differs from every stored one |
| Store.EventIndexSnoc | test_db.py:252 | an event found before an insertion is still found after it |
| Store.ReplaceKeepsIds | test_db.py:311 | an update that keeps the identifier keeps identifiers distinct and findable |
| Store.RemoveKeepsOthers | test_db.py:330 | `delete_one` removes only that event; the others stay distinct and findable |
| Store.OnlyStaffWithUsername | test_db.py:190-192 | with unique usernames the staff member `find_one` returns is the only one with that username |
| Scenarios.CountsOfTwo | test_db.py:220 | two registrations for one event count 0, 1, 2 as they are added, and 0 after the cascade |
| Scenarios.OpenEvent | test_db.py:224-269 | a logged-in staff member's valid form creates an owned event in an empty database |
| Scenarios.RegisterRepeated | test_db.py:112-128 | the same student registering twice is accepted once, then refused, and the count stays at one |
| Scenarios.RegisterAnother | test_db.py:121-128 | a second student with another email is accepted and the count becomes two |
| Scenarios.DeleteWithTwo | test_db.py:326-331 | the owner's delete succeeds and leaves the event with no registrations |
| Scenarios.RegisterTwiceThenDelete | test_db.py:93-137 | for any valid forms: create, register, repeat, another student, delete end Ok, Ok, AlreadyRegistered, Ok, Ok, with counts 0, 1, 1, 2, 0 |
| Scenarios.SignupThenLogin | test_db.py:141-200 | with a check that accepts what `hash` produced, a complete signup succeeds and the same form then logs in; an incomplete one is refused |

## Left out

- Flask itself is not modelled: routing, templates, `flash`, redirects, HTTP status codes and JSON bodies. Each route returns an `Outcome` instead.
- The GET branches only render pages. They are not modelled.
- The `login_required` decorator is not a separate member. It is the `session.None?` branch of each staff route.
- `index`, `event_detail`, `event_registrations` and the error handlers only read and render. They are not modelled.
- `staff_logout` clears the session and redirects (test_db.py:205-207). It changes no table, and the session is a parameter of every route, so logging out is passing `None` to the next one. It is not a separate member.
- `ObjectId` parsing is not modelled. Identifiers are opaque numbers issued from a counter, and a malformed identifier is the same as a missing one. So the "Invalid event ID" and "Event not found" paths that a malformed identifier reaches in `register_event`, `edit_event` and `delete_event` (HTTP 400) are the missing-event outcomes here.
- Registrations store the event identifier exactly as typed in the URL. The duplicate check, the insert, `delete_many` and the counts all compare that text, and the counts compare it with `str(event['_id'])`. `ObjectId()` also accepts upper-case hex, so in the application one ObjectId has several spellings. Identifiers are opaque here, so the model has only one spelling and does not capture three effects:
  - one email registering for one event through two spellings gets two registrations for one (event, email) pair;
  - a delete through one spelling leaves the registrations made through another;
  - a registration made through an upper-case spelling is never counted.
  The invariant's "one registration per student and event" and the completeness of the cascade hold only for this single-spelling model.
- Text.ContainsIgnoringCase: `$regex` with the `i` option is modelled as a literal substring match, lower-casing ASCII letters only. Regular-expression syntax and Unicode case folding are not modelled.
- Text.Lower: only ASCII letters are lower-cased. Python lower-cases other alphabets too, but that does not change the four allowed extensions' ASCII matches.
- Text.ParseInt: models `int()` on ASCII decimal digits, with an optional sign, underscores between digits and surrounding whitespace. Non-ASCII Unicode digits are not modelled. The digit limit is CPython's default of 4300. A limit changed through `PYTHONINTMAXSTRDIGITS` or `sys.set_int_max_str_digits`, and interpreters without the limit (before 3.11 and its 2022 back-ports), are not modelled.
- Password hashing and checking are not modelled. They are the parameters `hash` and `check`. Salting is not modelled.
- File saving, `secure_filename` and the timestamp-prefixed stored name are not modelled. The stored name is the parameter `savedName`, and an upload is its file name.
- `datetime.now()` is the parameter `now`. `create_event` calls it twice, for `created_at` and `updated_at`. The model uses one instant for both.
- Tables.SortByDate: MongoDB does not promise an order among events with equal dates. The model keeps them in insertion order, and its contract speaks only about the date order and the contents.
- Concurrent requests are not modelled. The check-then-insert in registration and signup is atomic here, and the model is sequential.
- Capacity is stored and never enforced by the code, so it is not enforced by the model.
- `static/js/main.js` (browser UI), `config.py` (environment settings) and `fix_ssl.py` (SSL and printing) are not part of this model.
- The session cookie's contents beyond the staff identifier are not modelled. `staff_name` is returned by `Login`.
