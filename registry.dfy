/**
  The registry as the application holds it: a module-level dictionary from
  activity name to a record dictionary whose participant list is updated in
  place. Each record is an object; the table is an object whose map field
  is cleared and refilled by the test fixture. Every operation is proved
  against its pure counterpart in module Roster.
 */
module Registry {
  import opened Roster

  /** One activity's record; signup and unregister change its participant list in place. */
  class ActivityRecord {
    const description: string
    const schedule: string
    const maxParticipants: nat
    var participants: seq<string>

    constructor (a: Activity)
      ensures Value() == a
    {
      description := a.description;
      schedule := a.schedule;
      maxParticipants := a.maxParticipants;
      participants := a.participants;
    }

    /** The record as it is listed. */
    function Value(): Activity
      reads this
    {
      Activity(description, schedule, maxParticipants, participants)
    }
  }

  /** The record objects a table refers to. */
  function RecordsOf(m: map<string, ActivityRecord>): set<ActivityRecord> {
    set n | n in m :: m[n]
  }

  /** Distinct activity names refer to distinct record objects. */
  ghost predicate Unaliased(m: map<string, ActivityRecord>) {
    forall n, k :: n in m && k in m && n != k ==> m[n] != m[k]
  }

  /** The values the records currently hold. */
  function ValuesOf(m: map<string, ActivityRecord>): (t: Table)
    reads RecordsOf(m)
    ensures t.Keys == m.Keys
  {
    map n | n in m :: m[n].Value()
  }

  /** Allocate one record per activity of `t`, as evaluating a table literal does. */
  method NewRecords(t: Table) returns (m: map<string, ActivityRecord>)
    ensures Unaliased(m) && ValuesOf(m) == t
    ensures fresh(RecordsOf(m))
  {
    m := map[];
    var todo := t.Keys;
    while todo != {}
      invariant todo <= t.Keys && m.Keys == t.Keys - todo
      invariant Unaliased(m)
      invariant forall n :: n in m ==> fresh(m[n]) && m[n].Value() == t[n]
      decreases todo
    {
      var n :| n in todo;
      var r := new ActivityRecord(t[n]);
      m := m[n := r];
      todo := todo - {n};
    }
  }

  /** The application's `activities` dictionary. */
  class ActivityTable {
    var activities: map<string, ActivityRecord>

    ghost predicate Valid()
      reads this, RecordsOf(activities)
    {
      Unaliased(activities) && TableValid(ValuesOf(activities))
    }

    /** What listing the table returns at this moment. */
    function Snapshot(): Table
      reads this, RecordsOf(activities)
    {
      ValuesOf(activities)
    }

    /** The table as the application builds it at start-up from its literal `initial`. */
    constructor (initial: Table)
      requires TableValid(initial)
      ensures Valid() && Snapshot() == initial
      ensures fresh(RecordsOf(activities))
    {
      var m := NewRecords(initial);
      activities := m;
    }

    /** List: the whole table, every activity with its four fields. */
    method List() returns (r: Table)
      ensures r == Snapshot()
    {
      r := map n | n in activities :: activities[n].Value();
    }

    /** Python's `dict.clear()` on the table. */
    method Clear()
      modifies this
      ensures activities == map[]
    {
      activities := map[];
    }

    /** Python's `dict.update(m)` on the table: entries of `m` win. */
    method Update(m: map<string, ActivityRecord>)
      modifies this
      ensures activities == old(activities) + m
    {
      activities := activities + m;
    }

    /** Signup: appends `email` to the named activity unless it is unknown or already listed. */
    method Signup(name: string, email: string) returns (o: Outcome)
      requires Valid()
      modifies RecordsOf(activities)
      ensures Valid() && activities == old(activities)
      ensures (o, Snapshot()) == SignupStep(old(Snapshot()), name, email)
    {
      if name !in activities {
        return NotFound;
      }
      var rec := activities[name];
      if email in rec.participants {
        return AlreadyRegistered;
      }
      rec.participants := rec.participants + [email];
      o := Ok(SignedUpMessage(email, name));
      StepsKeepTableValid(old(Snapshot()), name, email);
      assert Snapshot() == old(Snapshot())[name := rec.Value()];
    }

    /** Unregister: removes `email` from the named activity unless it is unknown or not listed. */
    method Unregister(name: string, email: string) returns (o: Outcome)
      requires Valid()
      modifies RecordsOf(activities)
      ensures Valid() && activities == old(activities)
      ensures (o, Snapshot()) == UnregisterStep(old(Snapshot()), name, email)
    {
      if name !in activities {
        return NotFound;
      }
      var rec := activities[name];
      if email !in rec.participants {
        return NotRegistered;
      }
      rec.participants := RemoveFirst(rec.participants, email);
      o := Ok(UnregisteredMessage(email, name));
      StepsKeepTableValid(old(Snapshot()), name, email);
      assert Snapshot() == old(Snapshot())[name := rec.Value()];
    }

    /** Signup of each email in turn to one activity, as a client loop issues them. */
    method SignupEach(name: string, emails: seq<string>) returns (outcomes: seq<Outcome>)
      requires Valid()
      modifies RecordsOf(activities)
      ensures Valid() && activities == old(activities)
      ensures (outcomes, Snapshot()) == SignupAll(old(Snapshot()), name, emails)
    {
      ghost var t0 := Snapshot();
      outcomes := [];
      var i := 0;
      while i < |emails|
        invariant i <= |emails|
        invariant Valid() && activities == old(activities)
        invariant (outcomes, Snapshot()) == SignupAll(t0, name, emails[..i])
      {
        var o := Signup(name, emails[i]);
        SignupAllSnoc(t0, name, emails[..i], emails[i]);
        assert emails[..i + 1] == emails[..i] + [emails[i]];
        outcomes := outcomes + [o];
        i := i + 1;
      }
      assert emails[..i] == emails;
    }
  }
}
