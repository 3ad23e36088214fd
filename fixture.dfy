/**
  The `reset_activities` fixture that runs around every test: before the
  test it clears the application's table and refills it from a freshly
  built copy of the seed activities (SeedData.Seed); after the test it clears
  and refills the table again from that same copy.

  Because the refill inserts the copy's record objects themselves, the
  records the test mutates ARE the copy's records, so the after-test refill
  puts back the mutated records: it restores nothing. TearDownAsWritten
  models that; TearDown is the restore the fixture evidently intends.
 */
module Fixture {
  import opened Roster
  import opened Registry
  import opened SeedData

  /**
    Before the test: build record objects for the literal `seed`, clear
    the table, then refill it with those records.
   */
  method SetUp(table: ActivityTable, seed: Table) returns (original: map<string, ActivityRecord>)
    requires TableValid(seed)
    modifies table
    ensures table.activities == original
    ensures table.Valid() && table.Snapshot() == seed
    ensures fresh(RecordsOf(original))
  {
    original := NewRecords(seed);
    table.Clear();
    table.Update(original);
    assert table.activities == original;
  }

  /** The fixture's setup on the seeded activities. */
  method ResetActivities(table: ActivityTable) returns (original: map<string, ActivityRecord>)
    modifies table
    ensures table.activities == original
    ensures table.Valid() && table.Snapshot() == Seed()
    ensures fresh(RecordsOf(original))
  {
    SeedValid();
    original := SetUp(table, Seed());
  }

  /**
    After the test, as written: clear the table, then refill it from the
    setup's records, which the test has been mutating all along. When the
    test left the table's record objects in place (no operation replaces
    them), the listed contents are exactly what the test left.
   */
  method TearDownAsWritten(table: ActivityTable, original: map<string, ActivityRecord>)
    modifies table
    ensures table.activities == original
    ensures old(table.activities) == original ==> table.Snapshot() == old(table.Snapshot())
  {
    table.Clear();
    table.Update(original);
  }

  /** After the test, corrected: refill the table from newly built records for `seed`. */
  method TearDown(table: ActivityTable, seed: Table)
    requires TableValid(seed)
    modifies table
    ensures table.Valid() && table.Snapshot() == seed
  {
    var restored := SetUp(table, seed);
  }

  /**
    One test round with the teardown as written: setup, a successful signup
    of a new email, teardown. The table is left holding the signup.
   */
  method RoundWithTearDownAsWritten(table: ActivityTable, seed: Table, name: string, email: string)
    returns (left: Table)
    requires TableValid(seed) && name in seed && email !in seed[name].participants
    modifies table
    ensures left == SignupStep(seed, name, email).1
    ensures left != seed && email in left[name].participants
  {
    var original := SetUp(table, seed);
    var o := table.Signup(name, email);
    TearDownAsWritten(table, original);
    left := table.List();
    SignupOutcomes(seed, name, email);
  }

  /**
    The signup test's round on the seeded activities with the teardown as
    written: the new student is still listed for Debate Team afterwards.
   */
  method SeededRoundLeavesNewStudent(table: ActivityTable) returns (left: Table)
    modifies table
    ensures "Debate Team" in left
    ensures "newstudent@mergington.edu" in left["Debate Team"].participants
    ensures left != Seed()
  {
    SeedValid();
    assert "newstudent@mergington.edu" !in Seed()["Debate Team"].participants;
    left := RoundWithTearDownAsWritten(table, Seed(), "Debate Team", "newstudent@mergington.edu");
  }
}
