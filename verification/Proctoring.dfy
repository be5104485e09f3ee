/** Registering the timed exams of a course (cms/djangoapps/contentstore/proctoring.py:30-152). */
module Proctoring {
  import opened Text

  /** A sequence of the course that is marked as time-limited. */
  datatype Sequence = Sequence(location: string, displayName: string, timeLimit: Option<int>, due: Option<int>,
                               isProctored: bool, isPractice: bool, hideAfterDue: bool, editedBy: int,
                               reviewRules: string, inTree: bool)

  /** A record of the exam service, by exam id. */
  datatype Exam = Exam(course: string, content: string, name: string, timeLimit: Option<int>, due: Option<int>,
                       isProctored: bool, isPractice: bool, isActive: bool, hideAfterDue: bool)

  datatype Policy = Policy(setBy: int, rules: string)

  datatype Db = Db(exams: map<nat, Exam>, policies: map<nat, Policy>)

  /** The service keeps at most one record for each content of a course. */
  ghost predicate Unique(exams: map<nat, Exam>) {
    forall i, j ::
      i in exams && j in exams && exams[i].course == exams[j].course && exams[i].content == exams[j].content ==> i == j
  }

  // ---------- Specification ----------

  function InTree(sequences: seq<Sequence>): seq<Sequence> {
    if sequences == [] then []
    else
      var n := |sequences| - 1;
      InTree(sequences[..n]) + if sequences[n].inTree then [sequences[n]] else []
  }

  /** Locations identify sequences. */
  ghost predicate DistinctLocations(timed: seq<Sequence>) {
    forall j, k :: 0 <= j < k < |timed| ==> timed[j].location != timed[k].location
  }

  /** The sequence at a location. */
  function SequenceAt(timed: seq<Sequence>, location: string): (r: Option<Sequence>)
    ensures r.Some? ==> r.value in timed && r.value.location == location
    ensures r.None? ==> forall s :: s in timed ==> s.location != location
  {
    if timed == [] then None
    else if timed[|timed| - 1].location == location then Some(timed[|timed| - 1])
    else SequenceAt(timed[..|timed| - 1], location)
  }

  /** The record a sequence should have. */
  function ExamFor(course: string, s: Sequence): Exam {
    Exam(course, s.location, s.displayName, s.timeLimit, s.due, s.isProctored, s.isPractice, true, s.hideAfterDue)
  }

  /** The review policy a sequence's exam should have, given the one it had. */
  function PolicyFor(s: Sequence, was: Option<Policy>): Option<Policy> {
    if s.isProctored && !s.isPractice && (was.Some? || s.reviewRules != "") then Some(Policy(s.editedBy, s.reviewRules))
    else None
  }

  function Get(policies: map<nat, Policy>, id: nat): Option<Policy> {
    if id in policies then Some(policies[id]) else None
  }

  /** An active record without a sequence is marked as inactive; it is not deleted. */
  function Retired(timed: seq<Sequence>, e: Exam): Exam {
    if e.isActive && SequenceAt(timed, e.content).None? then e.(isProctored := false, isActive := false) else e
  }

  /** What a record that existed before the run becomes. */
  function Successor(course: string, timed: seq<Sequence>, e: Exam, retire: bool): Exam {
    if e.course != course then e
    else
      match SequenceAt(timed, e.content)
      case Some(s) => ExamFor(course, s)
      case None => if retire then Retired(timed, e) else e
  }

  /** What a record's policy becomes. */
  function PolicySuccessor(course: string, timed: seq<Sequence>, e: Exam, was: Option<Policy>): Option<Policy> {
    if e.course == course && SequenceAt(timed, e.content).Some? then PolicyFor(SequenceAt(timed, e.content).value, was)
    else was
  }

  /** Every old record has become its successor; none was deleted. */
  ghost predicate OldRecordsFollow(before: Db, after: Db, course: string, timed: seq<Sequence>, retire: bool) {
    forall id :: id in before.exams ==>
      id in after.exams && after.exams[id] == Successor(course, timed, before.exams[id], retire)
  }

  /** The new records are those of sequences. */
  ghost predicate NewRecordsBelong(before: Db, after: Db, course: string, timed: seq<Sequence>) {
    forall id :: id in after.exams && id !in before.exams ==>
      exists s :: s in timed && after.exams[id] == ExamFor(course, s)
  }

  /** Each sequence has its record. */
  ghost predicate EachHasRecord(after: Db, course: string, timed: seq<Sequence>) {
    forall s :: s in timed ==> exists id :: id in after.exams && after.exams[id] == ExamFor(course, s)
  }

  ghost predicate PolicyFollows(before: Db, after: Db, course: string, timed: seq<Sequence>, id: nat) {
    Get(after.policies, id) ==
      if id in after.exams then PolicySuccessor(course, timed, after.exams[id], Get(before.policies, id))
      else Get(before.policies, id)
  }

  /** The service after a run with these sequences; with `retire`, records without a sequence have been marked as
      inactive. */
  ghost predicate Registered(before: Db, after: Db, course: string, timed: seq<Sequence>, retire: bool) {
    && Unique(after.exams)
    && OldRecordsFollow(before, after, course, timed, retire)
    && NewRecordsBelong(before, after, course, timed)
    && EachHasRecord(after, course, timed)
    && forall id: nat :: PolicyFollows(before, after, course, timed, id)
  }

  // ---------- Properties ----------

  /** After a run a record of the course is active if and only if its content is one of the sequences. */
  lemma {:induction false} ActiveIffSequence(before: Db, after: Db, course: string, timed: seq<Sequence>, id: nat)
    requires Registered(before, after, course, timed, true) && id in after.exams && after.exams[id].course == course
    ensures after.exams[id].isActive <==> exists s :: s in timed && s.location == after.exams[id].content
  {
  }

  /** Each sequence has exactly one record, with the sequence's fields. */
  lemma {:induction false} OneRecordEach(before: Db, after: Db, course: string, timed: seq<Sequence>,
                                         s: Sequence) returns (id: nat)
    requires Registered(before, after, course, timed, true) && s in timed
    ensures id in after.exams && after.exams[id] == ExamFor(course, s)
    ensures var e := after.exams[id];
      && e.course == course && e.content == s.location && e.name == s.displayName && e.timeLimit == s.timeLimit
      && e.due == s.due && e.isProctored == s.isProctored && e.isPractice == s.isPractice
      && e.isActive && e.hideAfterDue == s.hideAfterDue
    ensures forall other ::
      other in after.exams && after.exams[other].course == course && after.exams[other].content == s.location ==>
        other == id
  {
    id :| id in after.exams && after.exams[id] == ExamFor(course, s);
  }

  /** A proctored exam that is not for practice has the policy of its sequence, if it had one before or the sequence
      has review rules; no other sequence's exam has a policy. */
  lemma {:induction false} PolicyOfSequence(before: Db, after: Db, course: string, timed: seq<Sequence>, s: Sequence,
                                            id: nat)
    requires Registered(before, after, course, timed, true) && DistinctLocations(timed) && s in timed
    requires id in after.exams && after.exams[id].course == course && after.exams[id].content == s.location
    ensures id in after.policies
        <==> s.isProctored && !s.isPractice && (id in before.policies || s.reviewRules != "")
    ensures id in after.policies ==> after.policies[id].setBy == s.editedBy && after.policies[id].rules == s.reviewRules
  {
    assert PolicyFollows(before, after, course, timed, id);
    hide Registered;
    SequenceAtItsLocation(timed, s);
  }

  /** All other policies stay. */
  lemma {:induction false} OtherPoliciesStay(before: Db, after: Db, course: string, timed: seq<Sequence>, id: nat)
    requires Registered(before, after, course, timed, true)
    requires id in after.exams && after.exams[id].course == course ==>
      forall s :: s in timed ==> s.location != after.exams[id].content
    ensures id in after.policies <==> id in before.policies
    ensures id in before.policies ==> after.policies[id] == before.policies[id]
  {
    assert PolicyFollows(before, after, course, timed, id);
    hide Registered;
  }

  /** A record that was there keeps its id. Without a sequence it stays as it is, except that an active one is marked
      as neither active nor proctored; with one it takes the sequence's fields. Records of other courses stay. */
  lemma {:induction false} OldRecordBecomes(before: Db, after: Db, course: string, timed: seq<Sequence>, id: nat)
    requires Registered(before, after, course, timed, true) && DistinctLocations(timed) && id in before.exams
    ensures id in after.exams
    ensures var was, now := before.exams[id], after.exams[id];
      && (was.course != course ==> now == was)
      && (was.course == course && (forall s :: s in timed ==> s.location != was.content) ==>
            if was.isActive then now == was.(isProctored := false, isActive := false) else now == was)
      && (forall s :: was.course == course && s in timed && s.location == was.content ==>
            now == was.(name := s.displayName, timeLimit := s.timeLimit, due := s.due, isProctored := s.isProctored,
                        isPractice := s.isPractice, isActive := true, hideAfterDue := s.hideAfterDue))
  {
    assert after.exams[id] == Successor(course, timed, before.exams[id], true);
    hide Registered;
    forall s | s in timed ensures SequenceAt(timed, s.location) == Some(s) {
      SequenceAtItsLocation(timed, s);
    }
  }

  lemma {:induction false} SecondRunAddsNothing(before: Db, after: Db, again: Db, course: string, timed: seq<Sequence>,
                                                id: nat)
    requires Registered(before, after, course, timed, true) && Registered(after, again, course, timed, true)
    requires DistinctLocations(timed) && id in again.exams
    ensures id in after.exams
  {
    if id !in after.exams {
      var s :| s in timed && again.exams[id] == ExamFor(course, s);
      var first := OneRecordEach(before, after, course, timed, s);
      SequenceAtItsLocation(timed, s);
      assert false;
    }
  }

  lemma {:induction false} SecondRunKeepsExams(before: Db, after: Db, again: Db, course: string, timed: seq<Sequence>)
    requires Registered(before, after, course, timed, true) && Registered(after, again, course, timed, true)
    requires DistinctLocations(timed)
    ensures again.exams == after.exams
  {
    forall id | id in again.exams ensures id in after.exams {
      SecondRunAddsNothing(before, after, again, course, timed, id);
    }
    forall id | id in after.exams ensures id in again.exams && again.exams[id] == after.exams[id] {
      SuccessorOfSuccessor(before, after, course, timed, id);
      assert again.exams[id] == Successor(course, timed, after.exams[id], true);
    }
  }

  lemma {:induction false} SecondRunKeepsPolicy(before: Db, after: Db, again: Db, course: string, timed: seq<Sequence>,
                                                id: nat)
    requires Registered(before, after, course, timed, true) && Registered(after, again, course, timed, true)
    requires again.exams == after.exams
    ensures Get(again.policies, id) == Get(after.policies, id)
  {
    assert PolicyFollows(before, after, course, timed, id) && PolicyFollows(after, again, course, timed, id);
    hide Registered;
    if id in after.exams {
      var e, was := after.exams[id], Get(before.policies, id);
      assert Get(after.policies, id) == PolicySuccessor(course, timed, e, was);
      assert Get(again.policies, id) == PolicySuccessor(course, timed, e, Get(after.policies, id));
      PolicyForTwice(course, timed, e, was);
    }
  }

  /** A second run with the same sequences changes nothing. */
  lemma {:induction false} SecondRunChangesNothing(before: Db, after: Db, again: Db, course: string,
                                                   timed: seq<Sequence>)
    requires Registered(before, after, course, timed, true) && Registered(after, again, course, timed, true)
    requires DistinctLocations(timed)
    ensures again == after
  {
    SecondRunKeepsExams(before, after, again, course, timed);
    forall id: nat ensures Get(again.policies, id) == Get(after.policies, id) {
      SecondRunKeepsPolicy(before, after, again, course, timed, id);
    }
    hide Registered;
    SamePolicies(again.policies, after.policies);
  }

  lemma {:induction false} SamePolicies(a: map<nat, Policy>, b: map<nat, Policy>)
    requires forall id: nat :: Get(a, id) == Get(b, id)
    ensures a == b
  {
    forall id: nat ensures (id in a <==> id in b) && (id in a ==> a[id] == b[id]) {
      assert Get(a, id) == Get(b, id);
    }
  }

  lemma {:induction false} SequenceAtItsLocation(timed: seq<Sequence>, s: Sequence)
    requires DistinctLocations(timed) && s in timed
    ensures SequenceAt(timed, s.location) == Some(s)
  {
  }

  lemma {:induction false} SuccessorOfSuccessor(before: Db, after: Db, course: string, timed: seq<Sequence>, id: nat)
    requires DistinctLocations(timed) && Registered(before, after, course, timed, true) && id in after.exams
    ensures Successor(course, timed, after.exams[id], true) == after.exams[id]
  {
  }

  lemma {:induction false} PolicyForTwice(course: string, timed: seq<Sequence>, e: Exam, was: Option<Policy>)
    ensures var once := PolicySuccessor(course, timed, e, was);
      PolicySuccessor(course, timed, e, once) == once
  {
  }

  // ---------- The run ----------

  /** One more sequence was registered under the id. */
  ghost predicate OneRegistered(now: Db, next: Db, course: string, s: Sequence, id: nat) {
    && next.exams == now.exams[id := ExamFor(course, s)]
    && (id in now.exams ==> now.exams[id].course == course && now.exams[id].content == s.location)
    && (id !in now.exams ==>
          forall i :: i in now.exams ==> now.exams[i].course != course || now.exams[i].content != s.location)
    && Get(next.policies, id) == PolicyFor(s, Get(now.policies, id))
    && (forall i: nat :: i != id ==> Get(next.policies, i) == Get(now.policies, i))
  }

  lemma {:induction false} OneMoreLocation(timed: seq<Sequence>, s: Sequence, location: string)
    ensures SequenceAt(timed + [s], location) == if location == s.location then Some(s) else SequenceAt(timed, location)
  {
  }

  lemma {:induction false} OneMoreStaysUnique(now: Db, next: Db, course: string, s: Sequence, id: nat)
    requires Unique(now.exams) && OneRegistered(now, next, course, s, id)
    ensures Unique(next.exams)
  {
  }

  lemma {:induction false} OneMoreOldRecord(before: Db, now: Db, next: Db, course: string, timed: seq<Sequence>,
                                            s: Sequence, id: nat, was: nat)
    requires Registered(before, now, course, timed, false) && OneRegistered(now, next, course, s, id)
    requires was in before.exams && forall t :: t in timed ==> t.location != s.location
    ensures was in next.exams && next.exams[was] == Successor(course, timed + [s], before.exams[was], false)
  {
    OneMoreLocation(timed, s, before.exams[was].content);
    var e := before.exams[was];
    assert now.exams[was].course == e.course && now.exams[was].content == e.content;
  }

  lemma {:induction false} OneMoreNewRecord(before: Db, now: Db, next: Db, course: string, timed: seq<Sequence>,
                                            s: Sequence, id: nat, added: nat)
    requires Registered(before, now, course, timed, false) && OneRegistered(now, next, course, s, id)
    requires added in next.exams && added !in before.exams
    ensures exists t :: t in timed + [s] && next.exams[added] == ExamFor(course, t)
  {
  }

  lemma {:induction false} OneMoreHasRecord(before: Db, now: Db, next: Db, course: string, timed: seq<Sequence>,
                                            s: Sequence, id: nat, t: Sequence)
    requires Registered(before, now, course, timed, false) && OneRegistered(now, next, course, s, id)
    requires t in timed + [s] && forall t :: t in timed ==> t.location != s.location
    ensures exists i :: i in next.exams && next.exams[i] == ExamFor(course, t)
  {
    if t in timed {
      assert t.location != s.location;
      var i :| i in now.exams && now.exams[i] == ExamFor(course, t);
      hide Registered;
      assert i != id;
      assert next.exams[i] == ExamFor(course, t);
    } else {
      hide Registered;
      assert next.exams[id] == ExamFor(course, t);
    }
  }

  lemma {:induction false} OneMorePolicy(before: Db, now: Db, next: Db, course: string, timed: seq<Sequence>,
                                         s: Sequence, id: nat, i: nat)
    requires Registered(before, now, course, timed, false) && OneRegistered(now, next, course, s, id)
    requires forall t :: t in timed ==> t.location != s.location
    ensures PolicyFollows(before, next, course, timed + [s], i)
  {
    assert PolicyFollows(before, now, course, timed, i);
    if i in next.exams {
      OneMoreLocation(timed, s, next.exams[i].content);
      if i != id && next.exams[i].course == course && next.exams[i].content == s.location {
        assert false;
      }
    }
  }

  lemma {:induction false} OneMoreSequence(before: Db, now: Db, next: Db, course: string, timed: seq<Sequence>,
                                           s: Sequence, id: nat)
    requires Registered(before, now, course, timed, false) && OneRegistered(now, next, course, s, id)
    requires forall t :: t in timed ==> t.location != s.location
    ensures Registered(before, next, course, timed + [s], false)
  {
    hide Successor, SequenceAt, ExamFor, PolicyFollows;
    assert Unique(next.exams) by {
      OneMoreStaysUnique(now, next, course, s, id);
    }
    assert OldRecordsFollow(before, next, course, timed + [s], false) by {
      forall i | i in before.exams
        ensures i in next.exams && next.exams[i] == Successor(course, timed + [s], before.exams[i], false)
      {
        OneMoreOldRecord(before, now, next, course, timed, s, id, i);
      }
    }
    assert NewRecordsBelong(before, next, course, timed + [s]) by {
      forall i | i in next.exams && i !in before.exams
        ensures exists t :: t in timed + [s] && next.exams[i] == ExamFor(course, t)
      {
        OneMoreNewRecord(before, now, next, course, timed, s, id, i);
      }
    }
    assert EachHasRecord(next, course, timed + [s]) by {
      forall t | t in timed + [s] ensures exists i :: i in next.exams && next.exams[i] == ExamFor(course, t) {
        OneMoreHasRecord(before, now, next, course, timed, s, id, t);
      }
    }
    forall i: nat ensures PolicyFollows(before, next, course, timed + [s], i) {
      OneMorePolicy(before, now, next, course, timed, s, id, i);
    }
  }

  /** The exam service of the proctoring subsystem: records and review policies by exam id. */
  class ExamService {
    var exams: map<nat, Exam>
    var policies: map<nat, Policy>
    var nextId: nat

    ghost predicate Valid()
      reads this
    {
      Unique(exams) && (forall id :: id in exams ==> id < nextId) && forall id :: id in policies ==> id < nextId
    }

    function Value(): Db
      reads this
    {
      Db(exams, policies)
    }

    constructor ()
      ensures Valid() && Value() == Db(map[], map[])
    {
      exams, policies, nextId := map[], map[], 0;
    }

    /** get_exam_by_content_id; None stands for the exception. */
    method GetExamByContentId(course: string, content: string) returns (found: Option<nat>)
      ensures found.Some? ==>
        found.value in exams && exams[found.value].course == course && exams[found.value].content == content
      ensures found.None? ==> forall id :: id in exams ==> exams[id].course != course || exams[id].content != content
    {
      if id :| id in exams && exams[id].course == course && exams[id].content == content {
        return Some(id);
      }
      found := None;
    }

    /** The body of the first loop: the record of one sequence is updated or created, and its policy follows. */
    method RegisterSequence(course: string, s: Sequence) returns (id: nat)
      requires Valid()
      modifies this
      ensures Valid() && OneRegistered(old(Value()), Value(), course, s, id)
    {
      var found := GetExamByContentId(course, s.location);
      if found.Some? {
        id := found.value;
        exams := exams[id := exams[id].(name := s.displayName, timeLimit := s.timeLimit, due := s.due,
                                        isProctored := s.isProctored, isPractice := s.isPractice, isActive := true,
                                        hideAfterDue := s.hideAfterDue)];
      } else {
        id := nextId;
        nextId := nextId + 1;
        exams := exams[id := Exam(course, s.location, s.displayName, s.timeLimit, s.due, s.isProctored, s.isPractice,
                                  true, s.hideAfterDue)];
      }
      if s.isProctored && !s.isPractice {
        if id in policies {
          policies := policies[id := Policy(s.editedBy, s.reviewRules)];
        } else if s.reviewRules != "" {
          policies := policies[id := Policy(s.editedBy, s.reviewRules)];
        }
      } else {
        policies := policies - {id};
      }
    }

    /** get_all_exams_for_course, as ids. */
    method GetAllExamsForCourse(course: string) returns (ids: set<nat>)
      ensures ids == set id | id in exams && exams[id].course == course
    {
      ids := set id | id in exams && exams[id].course == course;
    }

    /** The second loop: active records of the course without a sequence are marked as inactive. */
    method RetireOthers(course: string, timed: seq<Sequence>)
      requires Valid()
      modifies this`exams
      ensures Valid() && AllRetired(old(Value()), Value(), course, timed)
    {
      ghost var was := exams;
      var ids := GetAllExamsForCourse(course);
      var rest := ids;
      while rest != {}
        invariant rest <= ids && exams.Keys == was.Keys
        invariant forall id :: id in exams ==>
          exams[id] == if id in ids - rest then Retired(timed, was[id]) else was[id]
        decreases rest
      {
        var id :| id in rest;
        rest := rest - {id};
        if exams[id].isActive {
          if SequenceAt(timed, exams[id].content).None? {
            exams := exams[id := exams[id].(isProctored := false, isActive := false)];
          }
        }
      }
      assert forall id :: id in exams ==> exams[id].course == was[id].course && exams[id].content == was[id].content;
    }

    /** The filter for dangling sequences. */
    method FilterInTree(sequences: seq<Sequence>) returns (timedExams: seq<Sequence>)
      ensures timedExams == InTree(sequences)
    {
      timedExams := [];
      for k := 0 to |sequences|
        invariant timedExams == InTree(sequences[..k])
      {
        assert sequences[..k + 1][..k] == sequences[..k];
        if sequences[k].inTree {
          timedExams := timedExams + [sequences[k]];
        }
      }
      assert sequences[..|sequences|] == sequences;
    }

    /** register_special_exams. */
    method RegisterSpecialExams(course: string, enabled: bool, proctoredEnabled: bool, timedEnabled: bool,
                                sequences: seq<Sequence>)
      requires Valid() && DistinctLocations(sequences)
      modifies this
      ensures Valid()
      ensures if enabled && (proctoredEnabled || timedEnabled)
              then Registered(old(Value()), Value(), course, InTree(sequences), true)
              else Value() == old(Value())
    {
      if !enabled {
        return;
      }
      if !proctoredEnabled && !timedEnabled {
        return;
      }
      var timedExams := FilterInTree(sequences);
      InTreeDistinct(sequences);
      ghost var before := Value();
      NothingRegistered(before, course);
      hide Registered, OneRegistered, Unique, InTree;
      for k := 0 to |timedExams|
        invariant Valid() && Registered(before, Value(), course, timedExams[..k], false)
      {
        ghost var now := Value();
        var id := RegisterSequence(course, timedExams[k]);
        assert timedExams[..k + 1] == timedExams[..k] + [timedExams[k]];
        assert forall t :: t in timedExams[..k] ==> t.location != timedExams[k].location;
        OneMoreSequence(before, now, Value(), course, timedExams[..k], timedExams[k], id);
      }
      assert timedExams[..|timedExams|] == timedExams;
      ghost var registered := Value();
      RetireOthers(course, timedExams);
      RetiredIsRegistered(before, registered, Value(), course, timedExams);
    }
  }

  lemma {:induction false} InTreeDistinct(sequences: seq<Sequence>)
    requires DistinctLocations(sequences)
    ensures DistinctLocations(InTree(sequences))
    ensures forall s :: s in InTree(sequences) <==> s in sequences && s.inTree
  {
    if sequences != [] {
      var n := |sequences| - 1;
      InTreeDistinct(sequences[..n]);
      assert sequences == sequences[..n] + [sequences[n]];
      assert forall s :: s in sequences[..n] ==> s.location != sequences[n].location;
    }
  }

  /** The records of the course without a sequence were retired. */
  ghost predicate AllRetired(now: Db, after: Db, course: string, timed: seq<Sequence>) {
    && after.policies == now.policies && after.exams.Keys == now.exams.Keys && Unique(after.exams)
    && forall id :: id in after.exams ==>
         after.exams[id] == if now.exams[id].course == course then Retired(timed, now.exams[id]) else now.exams[id]
  }

  lemma {:induction false} RetiredOldRecord(before: Db, now: Db, after: Db, course: string, timed: seq<Sequence>,
                                            id: nat)
    requires Registered(before, now, course, timed, false) && AllRetired(now, after, course, timed)
    requires id in before.exams
    ensures id in after.exams && after.exams[id] == Successor(course, timed, before.exams[id], true)
  {
    assert now.exams[id] == Successor(course, timed, before.exams[id], false);
  }

  lemma {:induction false} RetiredKeepsRecord(now: Db, after: Db, course: string, timed: seq<Sequence>, s: Sequence,
                                              id: nat)
    requires AllRetired(now, after, course, timed) && DistinctLocations(timed) && s in timed
    requires id in now.exams && now.exams[id] == ExamFor(course, s)
    ensures id in after.exams && after.exams[id] == ExamFor(course, s)
  {
  }

  lemma {:induction false} RetiredHasRecord(before: Db, now: Db, after: Db, course: string, timed: seq<Sequence>,
                                            s: Sequence)
    requires Registered(before, now, course, timed, false) && AllRetired(now, after, course, timed)
    requires DistinctLocations(timed) && s in timed
    ensures exists id :: id in after.exams && after.exams[id] == ExamFor(course, s)
  {
    var id :| id in now.exams && now.exams[id] == ExamFor(course, s);
    RetiredKeepsRecord(now, after, course, timed, s, id);
  }

  lemma {:induction false} RetiredNewRecord(before: Db, now: Db, after: Db, course: string, timed: seq<Sequence>,
                                            id: nat)
    requires Registered(before, now, course, timed, false) && AllRetired(now, after, course, timed)
    requires DistinctLocations(timed) && id in after.exams && id !in before.exams
    ensures exists s :: s in timed && after.exams[id] == ExamFor(course, s)
  {
  }

  lemma {:induction false} RetiredPolicy(before: Db, now: Db, after: Db, course: string, timed: seq<Sequence>, id: nat)
    requires Registered(before, now, course, timed, false) && AllRetired(now, after, course, timed)
    ensures PolicyFollows(before, after, course, timed, id)
  {
    assert PolicyFollows(before, now, course, timed, id);
    hide Registered, Successor, ExamFor, SequenceAt, PolicyFor;
    assert after.policies == now.policies && (id in after.exams <==> id in now.exams);
    assert id in after.exams ==>
      after.exams[id].course == now.exams[id].course && after.exams[id].content == now.exams[id].content;
  }

  lemma {:induction false} RetiredIsRegistered(before: Db, now: Db, after: Db, course: string, timed: seq<Sequence>)
    requires Registered(before, now, course, timed, false) && DistinctLocations(timed)
    requires AllRetired(now, after, course, timed)
    ensures Registered(before, after, course, timed, true)
  {
    hide Successor, Retired, SequenceAt, ExamFor, DistinctLocations, PolicyFollows;
    assert Unique(after.exams);
    assert OldRecordsFollow(before, after, course, timed, true) by {
      forall id | id in before.exams
        ensures id in after.exams && after.exams[id] == Successor(course, timed, before.exams[id], true)
      {
        RetiredOldRecord(before, now, after, course, timed, id);
      }
    }
    assert NewRecordsBelong(before, after, course, timed) by {
      forall id | id in after.exams && id !in before.exams
        ensures exists s :: s in timed && after.exams[id] == ExamFor(course, s)
      {
        RetiredNewRecord(before, now, after, course, timed, id);
      }
    }
    assert EachHasRecord(after, course, timed) by {
      forall s | s in timed ensures exists id :: id in after.exams && after.exams[id] == ExamFor(course, s) {
        RetiredHasRecord(before, now, after, course, timed, s);
      }
    }
    forall id: nat ensures PolicyFollows(before, after, course, timed, id) {
      RetiredPolicy(before, now, after, course, timed, id);
    }
  }

  lemma {:induction false} NothingRegistered(before: Db, course: string)
    requires Unique(before.exams)
    ensures Registered(before, before, course, [], false)
  {
  }
}
