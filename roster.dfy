/**
  The activity roster as values: an activity record, the outcome of a
  request, and the two updating registry operations (signup, unregister) as
  pure functions from a table to an outcome and a new table.
  The imperative registry in registry.dfy is proved against these functions.
 */
module Roster {

  /** One extracurricular activity, as the registry stores and lists it. */
  datatype Activity = Activity(
    description: string,
    schedule: string,
    maxParticipants: nat,   // descriptive only: no operation enforces it
    participants: seq<string>)

  /** The registry: activity name to activity record. */
  type Table = map<string, Activity>

  /** What a signup or unregister request yields. */
  datatype Outcome =
    | Ok(message: string)
    | NotFound            // the activity name is not a key of the table
    | AlreadyRegistered   // signup of an email already listed
    | NotRegistered       // unregister of an email not listed

  // ---------------------------------------------------------------------
  // Strings

  /** `needle` occurs in `hay` starting at index `i`. */
  predicate OccursAt(hay: string, needle: string, i: nat) {
    i + |needle| <= |hay| && hay[i..i + |needle|] == needle
  }

  /** Python's `needle in hay` on strings: `needle` occurs somewhere in `hay`. */
  predicate Contains(hay: string, needle: string)
    ensures Contains(hay, needle) ==> |needle| <= |hay|
  {
    exists i: nat :: i <= |hay| && OccursAt(hay, needle, i)
  }

  /** Confirmation for a successful signup: "Signed up", then the email, ending with the activity name.
      The tests ask only for "Signed up" and the email; the rest of the wording is this model's. */
  function SignedUpMessage(email: string, name: string): (m: string)
    ensures |m| == 15 + |email| + |name|
    ensures OccursAt(m, "Signed up", 0) && OccursAt(m, email, 10) && OccursAt(m, name, 15 + |email|)
  {
    var s := "Signed up " + email + " for " + name;
    assert s[0..9] == "Signed up";
    assert s[10..10 + |email|] == email;
    assert s[15 + |email|..] == name;
    s
  }

  /** Confirmation for a successful unregister: "Unregistered", then the email, ending with the activity name.
      The tests ask only for "Unregistered" and the email; the rest of the wording is this model's. */
  function UnregisteredMessage(email: string, name: string): (m: string)
    ensures |m| == 19 + |email| + |name|
    ensures OccursAt(m, "Unregistered", 0) && OccursAt(m, email, 13) && OccursAt(m, name, 19 + |email|)
  {
    var u := "Unregistered " + email + " from " + name;
    assert u[0..12] == "Unregistered";
    assert u[13..13 + |email|] == email;
    assert u[19 + |email|..] == name;
    u
  }

  /** The signup confirmation contains "Signed up", the email and the activity name. */
  lemma SignedUpMessageMentions(email: string, name: string)
    ensures Contains(SignedUpMessage(email, name), "Signed up")
    ensures Contains(SignedUpMessage(email, name), email)
    ensures Contains(SignedUpMessage(email, name), name)
  {
    var m := SignedUpMessage(email, name);
    assert OccursAt(m, "Signed up", 0) && OccursAt(m, email, 10) && OccursAt(m, name, 15 + |email|);
  }

  /** The unregister confirmation contains "Unregistered", the email and the activity name. */
  lemma UnregisteredMessageMentions(email: string, name: string)
    ensures Contains(UnregisteredMessage(email, name), "Unregistered")
    ensures Contains(UnregisteredMessage(email, name), email)
    ensures Contains(UnregisteredMessage(email, name), name)
  {
    var m := UnregisteredMessage(email, name);
    assert OccursAt(m, "Unregistered", 0) && OccursAt(m, email, 13) && OccursAt(m, name, 19 + |email|);
  }

  /** The human-readable detail of a refusal, holding the phrase a client matches on. */
  function Detail(o: Outcome): (d: string)
    requires !o.Ok?
    ensures o == NotFound ==> Contains(d, "Activity not found")
    ensures o == AlreadyRegistered ==> Contains(d, "already signed up")
    ensures o == NotRegistered ==> Contains(d, "not registered")
  {
    match o
    case NotFound =>
      assert OccursAt("Activity not found", "Activity not found", 0);
      "Activity not found"
    case AlreadyRegistered =>
      assert OccursAt("Student is already signed up", "already signed up", 11);
      "Student is already signed up"
    case NotRegistered =>
      assert OccursAt("Student is not registered", "not registered", 11);
      "Student is not registered"
  }

  // ---------------------------------------------------------------------
  // Participant lists

  predicate NoDuplicates(s: seq<string>) {
    forall i, j :: 0 <= i < j < |s| ==> s[i] != s[j]
  }

  /** Every participant list of the table is free of duplicates. */
  predicate TableValid(t: Table) {
    forall n :: n in t ==> NoDuplicates(t[n].participants)
  }

  /** Index of the first occurrence of `x` in `s`. */
  function FirstIndex(s: seq<string>, x: string): (i: nat)
    requires x in s
    ensures i < |s| && s[i] == x && x !in s[..i]
  {
    if s[0] == x then 0
    else
      var k := FirstIndex(s[1..], x);
      assert s[..k + 1] == [s[0]] + s[1..][..k];
      k + 1
  }

  /** Dropping the element at index `i` removes one copy of it from the multiset. */
  lemma DropAtMultiset(s: seq<string>, i: nat)
    requires i < |s|
    ensures multiset(s[..i] + s[i + 1..]) == multiset(s) - multiset{s[i]}
  {
    assert s == s[..i] + [s[i]] + s[i + 1..];
  }

  /** Dropping the element at index `i` of a duplicate-free list removes it entirely. */
  lemma DropAtNoDuplicates(s: seq<string>, i: nat)
    requires i < |s| && NoDuplicates(s)
    ensures s[i] !in s[..i] + s[i + 1..] && NoDuplicates(s[..i] + s[i + 1..])
  {
  }

  /** Python's `list.remove(x)`: drop the first occurrence of `x`. */
  function RemoveFirst(s: seq<string>, x: string): (r: seq<string>)
    requires x in s
    ensures |r| == |s| - 1
    ensures multiset(r) == multiset(s) - multiset{x}
    ensures NoDuplicates(s) ==> x !in r && NoDuplicates(r)
  {
    var i := FirstIndex(s, x);
    DropAtMultiset(s, i);
    if NoDuplicates(s) then DropAtNoDuplicates(s, i); s[..i] + s[i + 1..]
    else s[..i] + s[i + 1..]
  }

  /** `RemoveFirst` drops exactly the first occurrence and keeps the rest in order. */
  lemma RemoveFirstDropsFirst(s: seq<string>, x: string)
    requires x in s
    ensures exists k :: 0 <= k < |s| && s[k] == x && x !in s[..k] && RemoveFirst(s, x) == s[..k] + s[k + 1..]
  {
    var k := FirstIndex(s, x);
    assert RemoveFirst(s, x) == s[..k] + s[k + 1..];
  }

  /** Removing an email that was just appended gives back the list as it was. */
  lemma RemoveAppended(s: seq<string>, x: string)
    requires x !in s
    ensures RemoveFirst(s + [x], x) == s
  {
  }

  // ---------------------------------------------------------------------
  // Operations on a table

  /**
    Signup: unknown activity is NotFound, a listed email is AlreadyRegistered,
    otherwise the email is appended to that activity's participants.
    A failed request leaves the table as it was.
   */
  function SignupStep(t: Table, name: string, email: string): (r: (Outcome, Table))
    ensures r.1.Keys == t.Keys
    ensures r.0.Ok? || r.1 == t
  {
    if name !in t then (NotFound, t)
    else if email in t[name].participants then (AlreadyRegistered, t)
    else
      var a := t[name];
      (Ok(SignedUpMessage(email, name)), t[name := a.(participants := a.participants + [email])])
  }

  /**
    Unregister: unknown activity is NotFound, an unlisted email is NotRegistered,
    otherwise the email is removed from that activity's participants.
    A failed request leaves the table as it was.
   */
  function UnregisterStep(t: Table, name: string, email: string): (r: (Outcome, Table))
    ensures r.1.Keys == t.Keys
    ensures r.0.Ok? || r.1 == t
  {
    if name !in t then (NotFound, t)
    else if email !in t[name].participants then (NotRegistered, t)
    else
      var a := t[name];
      (Ok(UnregisteredMessage(email, name)), t[name := a.(participants := RemoveFirst(a.participants, email))])
  }

  /** Which outcome a signup gets, and what a successful one does to the table. */
  lemma SignupOutcomes(t: Table, name: string, email: string)
    ensures var (o, t') := SignupStep(t, name, email);
      && (o == NotFound <==> name !in t)
      && (o == AlreadyRegistered <==> name in t && email in t[name].participants)
      && (o.Ok? <==> name in t && email !in t[name].participants)
      && (o.Ok? ==>
            && Contains(o.message, "Signed up") && Contains(o.message, email)
            && Contains(o.message, name)
            && email in t'[name].participants
            && t'[name].participants == t[name].participants + [email]
            && |t'[name].participants| == |t[name].participants| + 1
            && t'[name].description == t[name].description
            && t'[name].schedule == t[name].schedule
            && t'[name].maxParticipants == t[name].maxParticipants
            && (forall n :: n in t && n != name ==> t'[n] == t[n]))
  {
    SignedUpMessageMentions(email, name);
  }

  /** Which outcome an unregister gets, and what a successful one does to the table. */
  lemma UnregisterOutcomes(t: Table, name: string, email: string)
    requires TableValid(t)
    ensures var (o, t') := UnregisterStep(t, name, email);
      && (o == NotFound <==> name !in t)
      && (o == NotRegistered <==> name in t && email !in t[name].participants)
      && (o.Ok? <==> name in t && email in t[name].participants)
      && (o.Ok? ==>
            && Contains(o.message, "Unregistered") && Contains(o.message, email)
            && Contains(o.message, name)
            && email !in t'[name].participants
            && multiset(t'[name].participants) == multiset(t[name].participants) - multiset{email}
            && (exists k :: 0 <= k < |t[name].participants| && t[name].participants[k] == email
                  && t'[name].participants == t[name].participants[..k] + t[name].participants[k + 1..])
            && |t'[name].participants| == |t[name].participants| - 1
            && t'[name].description == t[name].description
            && t'[name].schedule == t[name].schedule
            && t'[name].maxParticipants == t[name].maxParticipants
            && (forall n :: n in t && n != name ==> t'[n] == t[n]))
  {
    UnregisteredMessageMentions(email, name);
    if name in t && email in t[name].participants {
      RemoveFirstDropsFirst(t[name].participants, email);
    }
  }

  /** No participant list ever holds an email twice. */
  lemma StepsKeepTableValid(t: Table, name: string, email: string)
    requires TableValid(t)
    ensures TableValid(SignupStep(t, name, email).1)
    ensures TableValid(UnregisterStep(t, name, email).1)
  {
  }

  /** Signing a new email up and then unregistering it gives back the table exactly. */
  lemma SignupThenUnregister(t: Table, name: string, email: string)
    requires name in t && email !in t[name].participants
    ensures var (o1, t1) := SignupStep(t, name, email);
      var (o2, t2) := UnregisterStep(t1, name, email);
      o1.Ok? && o2.Ok? && t2 == t && email !in t2[name].participants
  {
    var a := t[name];
    RemoveAppended(a.participants, email);
    var t1 := SignupStep(t, name, email).1;
    assert t1[name].participants == a.participants + [email];
    assert UnregisterStep(t1, name, email).1 == t[name := a];
  }

  // ---------------------------------------------------------------------
  // Successive requests against one activity

  /** Signup of each email in turn, collecting the outcomes. */
  function SignupAll(t: Table, name: string, emails: seq<string>): (r: (seq<Outcome>, Table))
    ensures |r.0| == |emails| && r.1.Keys == t.Keys
  {
    if emails == [] then ([], t)
    else
      var (os, t1) := SignupAll(t, name, emails[..|emails| - 1]);
      var (o, t2) := SignupStep(t1, name, emails[|emails| - 1]);
      (os + [o], t2)
  }

  /** One more signup extends the batch by that signup's outcome and table. */
  lemma SignupAllSnoc(t: Table, name: string, emails: seq<string>, e: string)
    ensures var (os, t1) := SignupAll(t, name, emails);
      var (o, t2) := SignupStep(t1, name, e);
      SignupAll(t, name, emails + [e]) == (os + [o], t2)
  {
  }

  /** Unregister of each email in turn, collecting the outcomes. */
  function UnregisterAll(t: Table, name: string, emails: seq<string>): (r: (seq<Outcome>, Table))
    ensures |r.0| == |emails| && r.1.Keys == t.Keys
  {
    if emails == [] then ([], t)
    else
      var (os, t1) := UnregisterAll(t, name, emails[..|emails| - 1]);
      var (o, t2) := UnregisterStep(t1, name, emails[|emails| - 1]);
      (os + [o], t2)
  }

  /** One more unregister extends the batch by that unregister's outcome and table. */
  lemma UnregisterAllSnoc(t: Table, name: string, emails: seq<string>, e: string)
    ensures var (os, t1) := UnregisterAll(t, name, emails);
      var (o, t2) := UnregisterStep(t1, name, e);
      UnregisterAll(t, name, emails + [e]) == (os + [o], t2)
  {
    assert (emails + [e])[..|emails|] == emails;
  }

  /**
    Distinct new emails signed up one after another all succeed, and the
    activity ends with its old participants followed by all of them.
   */
  lemma {:induction false} SignupAllAppends(t: Table, name: string, emails: seq<string>)
    requires name in t && NoDuplicates(emails)
    requires forall e :: e in emails ==> e !in t[name].participants
    ensures var (os, t') := SignupAll(t, name, emails);
      && (forall k :: 0 <= k < |os| ==> os[k].Ok?)
      && t'[name].participants == t[name].participants + emails
      && |t'[name].participants| == |t[name].participants| + |emails|
      && (forall e :: e in emails ==> e in t'[name].participants)
  {
    if emails != [] {
      var init := emails[..|emails| - 1];
      var last := emails[|emails| - 1];
      assert emails == init + [last];
      assert NoDuplicates(init) by {
        forall i, j | 0 <= i < j < |init| ensures init[i] != init[j] {
          assert init[i] == emails[i] && init[j] == emails[j];
        }
      }
      SignupAllAppends(t, name, init);
      var t1 := SignupAll(t, name, init).1;
      forall i | 0 <= i < |init| ensures init[i] != last {
        assert init[i] == emails[i];
      }
      assert last !in t1[name].participants;
      assert t1[name].participants + [last] == t[name].participants + emails;
    }
  }

  /** Unregistering listed emails in turn succeeds every time and removes exactly those emails. */
  lemma {:induction false} UnregisterAllMultiset(t: Table, name: string, emails: seq<string>)
    requires name in t
    requires multiset(emails) <= multiset(t[name].participants)
    ensures var (os, t') := UnregisterAll(t, name, emails);
      && (forall k :: 0 <= k < |os| ==> os[k].Ok?)
      && multiset(t'[name].participants) == multiset(t[name].participants) - multiset(emails)
  {
    if emails != [] {
      var init := emails[..|emails| - 1];
      var last := emails[|emails| - 1];
      assert emails == init + [last];
      assert multiset(emails) == multiset(init) + multiset{last};
      UnregisterAllMultiset(t, name, init);
      UnregisterAllSnoc(t, name, init, last);
      var (os1, t1) := UnregisterAll(t, name, init);
      assert last in multiset(t1[name].participants);
    }
  }

  /** A batch of unregisters keeps every participant list free of duplicates. */
  lemma {:induction false} UnregisterAllKeepsValid(t: Table, name: string, emails: seq<string>)
    requires TableValid(t)
    ensures TableValid(UnregisterAll(t, name, emails).1)
  {
    if emails != [] {
      var init := emails[..|emails| - 1];
      UnregisterAllKeepsValid(t, name, init);
      StepsKeepTableValid(UnregisterAll(t, name, init).1, name, emails[|emails| - 1]);
    }
  }

  /**
    Unregistering each listed email once (in any order) succeeds every time,
    keeps the lists duplicate-free and removes exactly those emails.
   */
  lemma UnregisterAllRemoves(t: Table, name: string, emails: seq<string>)
    requires name in t && TableValid(t)
    requires multiset(emails) <= multiset(t[name].participants)
    ensures var (os, t') := UnregisterAll(t, name, emails);
      && (forall k :: 0 <= k < |os| ==> os[k].Ok?)
      && TableValid(t')
      && multiset(t'[name].participants) == multiset(t[name].participants) - multiset(emails)
  {
    UnregisterAllMultiset(t, name, emails);
    UnregisterAllKeepsValid(t, name, emails);
  }

  /** Unregistering every participant of an activity leaves it with none. */
  lemma UnregisterEveryone(t: Table, name: string, emails: seq<string>)
    requires name in t && TableValid(t)
    requires multiset(emails) == multiset(t[name].participants)
    ensures var (os, t') := UnregisterAll(t, name, emails);
      (forall k :: 0 <= k < |os| ==> os[k].Ok?) && t'[name].participants == []
  {
    UnregisterAllRemoves(t, name, emails);
    var p := UnregisterAll(t, name, emails).1[name].participants;
    assert |multiset(p)| == 0;
  }
}
