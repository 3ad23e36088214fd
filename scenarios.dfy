/**
  The test suite's scenarios, each stated on the seeded table: which outcome
  each request gets and what the listing shows afterwards. Names arrive
  already percent-decoded ("Debate%20Team" is "Debate Team").
 */
module Scenarios {
  import opened Roster
  import opened SeedData

  /** A new student signs up for Debate Team and is listed there. */
  lemma SignupNewStudent()
    ensures var (o, t) := SignupStep(Seed(), "Debate Team", "newstudent@mergington.edu");
      && o.Ok?
      && Contains(o.message, "Signed up") && Contains(o.message, "newstudent@mergington.edu")
      && "newstudent@mergington.edu" in t["Debate Team"].participants
  {
    assert "newstudent@mergington.edu" !in Seed()["Debate Team"].participants;
    SignupOutcomes(Seed(), "Debate Team", "newstudent@mergington.edu");
  }

  /** Signing up for an activity the seed does not hold is refused as not found. */
  lemma SignupUnknownActivity()
    ensures var (o, t) := SignupStep(Seed(), "NonExistent Club", "student@mergington.edu");
      o == NotFound && Contains(Detail(o), "Activity not found") && t == Seed()
  {
    assert "NonExistent Club" !in Seed();
  }

  /** A student already listed for Debate Team is refused, and nothing changes. */
  lemma SignupDuplicate()
    ensures var (o, t) := SignupStep(Seed(), "Debate Team", "alex@mergington.edu");
      o == AlreadyRegistered && Contains(Detail(o), "already signed up") && t == Seed()
  {
    assert Seed()["Debate Team"].participants[0] == "alex@mergington.edu";
  }

  /** Two different new students sign up for Debate Team one after the other; both are listed. */
  lemma SignupTwoStudents()
    ensures var (os, t) := SignupAll(Seed(), "Debate Team", ["student1@mergington.edu", "student2@mergington.edu"]);
      && os[0].Ok? && os[1].Ok?
      && "student1@mergington.edu" in t["Debate Team"].participants
      && "student2@mergington.edu" in t["Debate Team"].participants
  {
    var emails := ["student1@mergington.edu", "student2@mergington.edu"];
    assert emails[0] != emails[1];
    assert forall e :: e in emails ==> e !in Seed()["Debate Team"].participants;
    SignupAllAppends(Seed(), "Debate Team", emails);
  }

  /** Alex unregisters from Debate Team and is no longer listed. */
  lemma UnregisterAlex()
    ensures var (o, t) := UnregisterStep(Seed(), "Debate Team", "alex@mergington.edu");
      && o.Ok?
      && Contains(o.message, "Unregistered") && Contains(o.message, "alex@mergington.edu")
      && "alex@mergington.edu" !in t["Debate Team"].participants
  {
    assert Seed()["Debate Team"].participants[0] == "alex@mergington.edu";
    SeedValid();
    UnregisterOutcomes(Seed(), "Debate Team", "alex@mergington.edu");
  }

  /** Unregistering from an activity the seed does not hold is refused as not found. */
  lemma UnregisterUnknownActivity()
    ensures var (o, t) := UnregisterStep(Seed(), "NonExistent Club", "student@mergington.edu");
      o == NotFound && Contains(Detail(o), "Activity not found") && t == Seed()
  {
    assert "NonExistent Club" !in Seed();
  }

  /** Unregistering a student who is not listed is refused, and nothing changes. */
  lemma UnregisterNotListed()
    ensures var (o, t) := UnregisterStep(Seed(), "Debate Team", "notregistered@mergington.edu");
      o == NotRegistered && Contains(Detail(o), "not registered") && t == Seed()
  {
    assert "notregistered@mergington.edu" !in Seed()["Debate Team"].participants;
  }

  /** Both Math Olympiad participants unregister in turn; the activity is left empty. */
  lemma UnregisterBothMathOlympians()
    ensures var (os, t) := UnregisterAll(Seed(), "Math Olympiad", ["james@mergington.edu", "maya@mergington.edu"]);
      os[0].Ok? && os[1].Ok? && |t["Math Olympiad"].participants| == 0
  {
    assert Seed()["Math Olympiad"].participants == ["james@mergington.edu", "maya@mergington.edu"];
    SeedValid();
    UnregisterEveryone(Seed(), "Math Olympiad", ["james@mergington.edu", "maya@mergington.edu"]);
  }

  /** A test user signs up for Debate Team, is listed, unregisters, and is no longer listed. */
  lemma SignupThenUnregisterTestUser()
    ensures var (o1, t1) := SignupStep(Seed(), "Debate Team", "testuser@mergington.edu");
      var (o2, t2) := UnregisterStep(t1, "Debate Team", "testuser@mergington.edu");
      && o1.Ok? && "testuser@mergington.edu" in t1["Debate Team"].participants
      && o2.Ok? && "testuser@mergington.edu" !in t2["Debate Team"].participants
  {
    assert "testuser@mergington.edu" !in Seed()["Debate Team"].participants;
    SignupOutcomes(Seed(), "Debate Team", "testuser@mergington.edu");
    SignupThenUnregister(Seed(), "Debate Team", "testuser@mergington.edu");
  }

  /** The three emails the Soccer Club loop signs up: distinct, and none of them seeded there. */
  lemma NewSoccerStudents(emails: seq<string>)
    requires emails == ["student0@mergington.edu", "student1@mergington.edu", "student2@mergington.edu"]
    ensures NoDuplicates(emails)
    ensures forall e :: e in emails ==> e !in Seed()["Soccer Club"].participants
  {
    assert Seed()["Soccer Club"].participants == ["sarah@mergington.edu", "lucas@mergington.edu"];
    assert emails[0] != emails[1] && emails[0] != emails[2] && emails[1] != emails[2];
  }

  /** Three new students sign up for Soccer Club in a loop; its list grows by exactly three. */
  lemma SoccerClubGrowsByThree()
    ensures var (os, t) := SignupAll(Seed(), "Soccer Club",
        ["student0@mergington.edu", "student1@mergington.edu", "student2@mergington.edu"]);
      && (forall k :: 0 <= k < 3 ==> os[k].Ok?)
      && |t["Soccer Club"].participants| == |Seed()["Soccer Club"].participants| + 3
  {
    var emails := ["student0@mergington.edu", "student1@mergington.edu", "student2@mergington.edu"];
    NewSoccerStudents(emails);
    SignupAllAppends(Seed(), "Soccer Club", emails);
  }
}
