# Mergington High School activity registry

A model of the activity registry that the Mergington High School Activities
API serves, as its test suite exercises it:

- A **table** maps an activity name to a record. Each record holds a
  description, a schedule, a maximum number of participants and the list of
  participant emails.
- **List** returns the whole table.
- **Signup** adds an email to an activity's participant list. It is
  refused with *not found* when the activity does not exist, and with
  *already signed up* when the email is already listed. On success its
  message mentions "Signed up" and the email.
- **Unregister** removes an email from an activity's participant list. It is
  refused with *not found* when the activity does not exist, and with *not
  registered* when the email is not listed. On success its message mentions
  "Unregistered" and the email.

The refusals, the substrings of the messages and the listed or unlisted
emails are what the tests assert. Where the email goes in the list, which
occurrence unregister removes and whether a record is changed in place are
not asserted by any test. The model fixes them itself: signup appends at the
end, unregister removes the first occurrence and keeps the rest in order,
and the program's handlers update the record object in place (see "Left
out").
- The **`reset_activities` fixture** runs around every test. It clears the
  table and refills it from a freshly built literal of nine seeded
  activities, and after the test it clears and refills the table again.

Layout:

- `roster.dfy` (module `Roster`): the values. This covers the activity
  record, the request outcome and the messages. Signup and unregister are
  pure step functions on a table, and batches of them are left folds. The
  lemmas state the outcomes, the invariant that no participant list holds an
  email twice, and the round trips.
- `seed.dfy` (module `SeedData`): the fixture's nine seeded activities and
  what holds of them.
- `registry.dfy` (module `Registry`): the registry as the program holds it.
  Each record is an object whose participant list is changed in place, and
  the table is an object with a map field. The request methods (`Signup`,
  `Unregister` and the request loop `SignupEach`) are proved against the
  step functions of `Roster`. `List`, `Clear`, `Update` and the two
  constructors are specified directly by the table value they leave.
- `fixture.dfy` (module `Fixture`): the fixture's setup and teardown on that
  object table, including the teardown's aliasing (see Findings).
- `scenarios.dfy` (module `Scenarios`): each test's requests stated on the
  seeded table.

## Model

| member | source | states |
|---|---|---|
| Roster.Contains | tests/test_app.py:138-139 | the definition of Python's substring test `in` that the assertions use (some position where the needle occurs, the empty needle included); its contract adds that a contained needle is never longer than the string |
| Roster.SignedUpMessage | tests/test_app.py:131-139 | the success message of a signup contains "Signed up" and the email, as the tests assert; where they occur and the mention of the activity name are the model's wording (see "Left out") |
| Roster.UnregisteredMessage | tests/test_app.py:192-200 | the success message of an unregister contains "Unregistered" and the email, as the tests assert; where they occur and the mention of the activity name are the model's wording (see "Left out") |
| Roster.SignedUpMessageMentions | tests/test_app.py:131-139 | the success message of a signup contains "Signed up", the email and the activity name |
| Roster.UnregisteredMessageMentions | tests/test_app.py:192-200 | the success message of an unregister contains "Unregistered", the email and the activity name |
| Roster.Detail | tests/test_app.py:153-228 | the detail of a refusal contains "Activity not found" when the activity is missing, "already signed up" for a duplicate signup and "not registered" for an unregister of an unlisted email |
| Roster.RemoveFirst | tests/test_app.py:202-212 | removing a listed email drops exactly one occurrence: one shorter, multiset minus that email, and on a duplicate-free list the email is gone and the list stays duplicate-free |
| Roster.RemoveFirstDropsFirst | tests/test_app.py:202-212 | removing a listed email drops exactly its first occurrence and keeps the other entries in their order |
| Roster.SignupStep | tests/test_app.py:131-168 | a signup never adds or removes activities, and a refused signup leaves the table as it was |
| Roster.UnregisterStep | tests/test_app.py:192-228 | an unregister never adds or removes activities, and a refused unregister leaves the table as it was |
| Roster.SignupOutcomes | tests/test_app.py:131-168 | signup is refused as not found exactly when the activity is missing, and as already signed up exactly when the email is listed; otherwise it succeeds with a message containing "Signed up" and the email (and, in the model's wording, the activity name), appends the email to that activity only and keeps its other fields |
| Roster.UnregisterOutcomes | tests/test_app.py:192-228 | unregister is refused as not found exactly when the activity is missing, and as not registered exactly when the email is not listed; otherwise it succeeds with a message containing "Unregistered" and the email (and, in the model's wording, the activity name), removes one occurrence of the email from that activity only, keeping the other entries in order, and keeps its other fields |
| Roster.StepsKeepTableValid | tests/test_app.py:161-168 | because a listed email is refused, signup and unregister keep every participant list free of duplicates |
| Roster.SignupThenUnregister | tests/test_app.py:252-275 | signing a new email up and then unregistering it both succeed and give back exactly the original table |
| Roster.SignupAll | tests/test_app.py:283-287 | a batch of signups yields one outcome per email and keeps the set of activities |
| Roster.UnregisterAll | tests/test_app.py:230-241 | a batch of unregisters yields one outcome per email and keeps the set of activities |
| Roster.SignupAllAppends | tests/test_app.py:277-292 | distinct new emails signed up in turn all succeed, and the list becomes the old list followed by those emails, longer by their number |
| Roster.UnregisterAllMultiset | tests/test_app.py:230-246 | unregistering emails that are all listed (counting repeats) all succeed, and the list loses exactly those emails as a multiset |
| Roster.UnregisterAllKeepsValid | tests/test_app.py:230-246 | a batch of unregisters keeps every participant list free of duplicates |
| Roster.UnregisterAllRemoves | tests/test_app.py:230-246 | unregistering listed emails in turn all succeed, keep the lists duplicate-free and remove exactly those emails |
| Roster.UnregisterEveryone | tests/test_app.py:230-246 | unregistering every participant in turn all succeed and leave the activity's list empty |
| SeedData.SeedSize | tests/test_app.py:26-81 | the seeded table has exactly nine activities |
| SeedData.SeedValid | tests/test_app.py:26-81 | every seeded participant list is free of duplicates and every seeded capacity is positive |
| SeedData.SeedContents | tests/test_app.py:98-125 | the seed has nine activities including Debate Team, Math Olympiad and Chess Club; alex is in Debate Team and james in Math Olympiad; Soccer Club starts with two participants; the table is duplicate-free |
| Registry.ActivityRecord.constructor | tests/test_app.py:27-32 | a record object built from a record literal holds exactly its four fields |
| Registry.ValuesOf | tests/test_app.py:108-117 | listing the record objects gives one entry per activity name |
| Registry.NewRecords | tests/test_app.py:26-81 | evaluating the table literal gives fresh, pairwise distinct record objects whose values are the literal's records |
| Registry.ActivityTable.constructor | tests/test_app.py:13 | the program's table starts valid, holding the given initial records in fresh objects |
| Registry.ActivityTable.List | tests/test_app.py:98-125 | listing returns every activity with its current four fields |
| Registry.ActivityTable.Clear | tests/test_app.py:84 | clearing leaves the table with no activities |
| Registry.ActivityTable.Update | tests/test_app.py:86 | updating inserts the given entries, which win over existing ones |
| Registry.ActivityTable.Signup | tests/test_app.py:141-151 | an in-place signup keeps the table valid and its record objects, and its outcome and new listing are those of the signup step |
| Registry.ActivityTable.Unregister | tests/test_app.py:202-212 | an in-place unregister keeps the table valid and its record objects, and its outcome and new listing are those of the unregister step |
| Registry.ActivityTable.SignupEach | tests/test_app.py:283-287 | the request loop keeps the table valid, and its outcomes and final listing are those of the batch of signups |
| Fixture.SetUp | tests/test_app.py:22-86 | setup leaves the table valid, listing exactly the given literal, and holding the fresh records the fixture keeps |
| Fixture.ResetActivities | tests/test_app.py:22-86 | setup on the seeded literal leaves the table valid and listing exactly the seed |
| Fixture.TearDownAsWritten | tests/test_app.py:90-92 | teardown as written puts back the fixture's own record objects; if the test kept those objects, the listing is exactly what the test left |
| Fixture.TearDown | tests/test_app.py:90-92 | the corrected teardown leaves the table valid and listing exactly the seed |
| Fixture.RoundWithTearDownAsWritten | tests/test_app.py:90-92 | setup, a successful signup and teardown as written leave the table holding the signup, not the seed |
| Fixture.SeededRoundLeavesNewStudent | tests/test_app.py:141-151 | after the add-participant test and teardown as written, newstudent is still listed for Debate Team and the table differs from the seed |
| Scenarios.SignupNewStudent | tests/test_app.py:131-151 | signing newstudent up for Debate Team succeeds with a message naming "Signed up" and the email, and lists the student |
| Scenarios.SignupUnknownActivity | tests/test_app.py:153-159 | signup for NonExistent Club is refused as "Activity not found" and changes nothing |
| Scenarios.SignupDuplicate | tests/test_app.py:161-168 | signing alex up for Debate Team again is refused as "already signed up" and changes nothing |
| Scenarios.SignupTwoStudents | tests/test_app.py:170-186 | student1 then student2 signing up for Debate Team both succeed and are both listed |
| Scenarios.UnregisterAlex | tests/test_app.py:192-212 | unregistering alex from Debate Team succeeds with a message naming "Unregistered" and the email, and alex is no longer listed |
| Scenarios.UnregisterUnknownActivity | tests/test_app.py:214-220 | unregister from NonExistent Club is refused as "Activity not found" and changes nothing |
| Scenarios.UnregisterNotListed | tests/test_app.py:222-228 | unregistering an unlisted email from Debate Team is refused as "not registered" and changes nothing |
| Scenarios.UnregisterBothMathOlympians | tests/test_app.py:230-246 | unregistering james then maya from Math Olympiad both succeed and leave it with no participants |
| Scenarios.SignupThenUnregisterTestUser | tests/test_app.py:252-275 | testuser signs up for Debate Team and is listed, then unregisters and is no longer listed |
| Scenarios.SoccerClubGrowsByThree | tests/test_app.py:277-292 | three new students signing up for Soccer Club in turn all succeed, and its list grows by exactly three |

## Left out

- HTTP transport: the FastAPI routes, the test client, status codes (200, 400, 404) and JSON serialisation are not modelled. Outcomes are a datatype whose constructors stand for the status codes.
- Percent-encoding and query-string parsing are not modelled. Activity names and emails reach the operations already decoded.
- The application module (`src/app.py`) is not part of this model. Its handlers are modelled on what the tests assert about them, completed by the model's own choices, each listed below on a line that starts with the member it concerns. Its own table literal is the `initial` argument of `Registry.ActivityTable.constructor`.
- Roster.SignupStep: signup appends the email at the end of the list and a refused request leaves the table unchanged. The tests check only that the email is listed and the count, so `Roster.SignupOutcomes` and `Roster.SignupAllAppends` promise an exact order (`old + emails`) that no test asserts; the model chooses it.
- Roster.UnregisterStep: unregister removes the first occurrence of the email, as a Python list's `remove` would. The tests check only that the email is no longer listed; the model chooses the occurrence and the kept order.
- Registry.ActivityTable.Signup: signup and unregister change the record object stored in the table in place, rather than storing a new record. No test asserts this. The Finding below depends on it.
- Roster.SignedUpMessage / Roster.UnregisteredMessage: the full text of the success messages ("Signed up <email> for <activity>", "Unregistered <email> from <activity>"), the positions their contracts state and the mention of the activity name are the model's own choice. Only the two substrings each test asserts ("Signed up" or "Unregistered", and the email) come from the source.
- Roster.Detail: the refusal details are this model's own wording. Only the substrings the tests assert ("Activity not found", "already signed up", "not registered") come from the source. Success messages have no detail.
- The capacity (`max_participants`) is stored and listed but never enforced, because the tests never exercise a full activity.
- Concurrency is not modelled: the test named "concurrent" issues its signups one after another.
- The order in which the listing enumerates activities is not modelled, because a table is a map.
- The pytest machinery (the `client` fixture, `sys.path` set-up, autouse) is left out. The fixture is modelled by its effect on the table.

## Findings

| source | as written | input that shows it | evidently intended | confidence | as-written member | corrected member |
|---|---|---|---|---|---|---|
| tests/test_app.py:90-92 | teardown clears the table and refills it from `original_activities`, whose record dicts are the very objects the test mutated through the table, so it restores nothing | setup, then signup of newstudent@mergington.edu to Debate Team, then teardown: Debate Team still lists newstudent | teardown restores the seeded activities | medium, not executed (it assumes the handlers update the record dict in place; no test can observe it, because every setup rebuilds the literal before the next test runs) | Fixture.SeededRoundLeavesNewStudent | Fixture.TearDown |
