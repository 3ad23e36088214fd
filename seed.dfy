/**
  The seed: the nine activities, with their initial participants, that the
  test fixture writes into the registry before every test, and what holds
  of them.
 */
module SeedData {
  import opened Roster

  /** The names of the nine seeded activities. */
  function SeedNames(): set<string> {
    {"Debate Team", "Math Olympiad", "Basketball Team", "Soccer Club", "Drama Club",
     "Art Studio", "Chess Club", "Programming Class", "Gym Class"}
  }

  /** The seeded record of each of those activities (the last case of each field is Gym Class). */
  function SeedRecord(name: string): Activity {
    Activity(SeedDescription(name), SeedSchedule(name), SeedCapacity(name), SeedParticipants(name))
  }

  /** Seeded description of each activity. */
  function SeedDescription(name: string): string {
    match name
    case "Debate Team" => "Develop public speaking and argumentation skills"
    case "Math Olympiad" => "Compete in mathematical problem-solving competitions"
    case "Basketball Team" => "Join the varsity basketball team and compete in league games"
    case "Soccer Club" => "Play recreational and competitive soccer"
    case "Drama Club" => "Perform in theatrical productions and develop acting skills"
    case "Art Studio" => "Explore painting, drawing, and sculpture techniques"
    case "Chess Club" => "Learn strategies and compete in chess tournaments"
    case "Programming Class" => "Learn programming fundamentals and build software projects"
    case _ => "Physical education and sports activities"
  }

  /** Seeded meeting times of each activity. */
  function SeedSchedule(name: string): string {
    match name
    case "Debate Team" => "Wednesdays, 4:00 PM - 5:30 PM"
    case "Math Olympiad" => "Saturdays, 10:00 AM - 12:00 PM"
    case "Basketball Team" => "Mondays and Thursdays, 3:30 PM - 5:00 PM"
    case "Soccer Club" => "Tuesdays and Thursdays, 4:00 PM - 5:30 PM"
    case "Drama Club" => "Wednesdays, 3:30 PM - 5:00 PM"
    case "Art Studio" => "Mondays and Fridays, 3:30 PM - 4:30 PM"
    case "Chess Club" => "Fridays, 3:30 PM - 5:00 PM"
    case "Programming Class" => "Tuesdays and Thursdays, 3:30 PM - 4:30 PM"
    case _ => "Mondays, Wednesdays, Fridays, 2:00 PM - 3:00 PM"
  }

  /** Seeded capacity of each activity. */
  function SeedCapacity(name: string): nat {
    match name
    case "Debate Team" => 15
    case "Math Olympiad" => 20
    case "Basketball Team" => 15
    case "Soccer Club" => 22
    case "Drama Club" => 25
    case "Art Studio" => 18
    case "Chess Club" => 12
    case "Programming Class" => 20
    case _ => 30
  }

  /** Seeded participants of each activity. */
  function SeedParticipants(name: string): seq<string> {
    match name
    case "Debate Team" => ["alex@mergington.edu"]
    case "Math Olympiad" => ["james@mergington.edu", "maya@mergington.edu"]
    case "Basketball Team" => ["tyler@mergington.edu"]
    case "Soccer Club" => ["sarah@mergington.edu", "lucas@mergington.edu"]
    case "Drama Club" => ["emma@mergington.edu", "jack@mergington.edu"]
    case "Art Studio" => ["grace@mergington.edu"]
    case "Chess Club" => ["michael@mergington.edu", "daniel@mergington.edu"]
    case "Programming Class" => ["emma@mergington.edu", "sophia@mergington.edu"]
    case _ => ["john@mergington.edu", "olivia@mergington.edu"]
  }

  /** The fixture's table literal: every seeded name with its record. */
  function Seed(): Table {
    map n | n in SeedNames() :: SeedRecord(n)
  }

  /** The seed holds exactly nine distinct activity names. */
  lemma SeedSize()
    ensures |Seed()| == 9
  {
    var a := {"Debate Team", "Math Olympiad", "Basketball Team", "Soccer Club"};
    var b := {"Drama Club", "Art Studio", "Chess Club", "Programming Class", "Gym Class"};
    assert |a| == 4 && |b| == 5 && a !! b;
    assert SeedNames() == a + b;
    assert Seed().Keys == SeedNames();
  }

  /** The seeded record of `name` has a duplicate-free participant list and a positive capacity. */
  predicate RecordOk(name: string) {
    NoDuplicates(SeedParticipants(name)) && SeedCapacity(name) > 0
  }

  /** No seeded participant list holds an email twice, and every capacity is positive. */
  lemma SeedValid()
    ensures TableValid(Seed())
    ensures forall n :: n in Seed() ==> Seed()[n].maxParticipants > 0
  {
    assert RecordOk("Debate Team");
    assert RecordOk("Math Olympiad");
    assert RecordOk("Basketball Team");
    assert RecordOk("Soccer Club");
    assert RecordOk("Drama Club");
    assert RecordOk("Art Studio");
    assert RecordOk("Chess Club");
    assert RecordOk("Programming Class");
    assert RecordOk("Gym Class");
    assert forall n :: n in SeedNames() ==> RecordOk(n);
  }

  /** The seed lists nine activities with their initial participants, all duplicate-free. */
  lemma SeedContents()
    ensures |Seed()| == 9
    ensures "Debate Team" in Seed() && "Math Olympiad" in Seed() && "Chess Club" in Seed()
    ensures "alex@mergington.edu" in Seed()["Debate Team"].participants
    ensures "james@mergington.edu" in Seed()["Math Olympiad"].participants
    ensures |Seed()["Soccer Club"].participants| == 2
    ensures forall n :: n in Seed() ==> Seed()[n].maxParticipants > 0
    ensures TableValid(Seed())
  {
    SeedSize();
    SeedValid();
    var s := Seed();
    assert s["Debate Team"].participants[0] == "alex@mergington.edu";
    assert s["Math Olympiad"].participants[0] == "james@mergington.edu";
  }
}
