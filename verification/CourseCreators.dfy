/** The table of course creators, its save hooks, and the group of users who may create courses
    (cms/djangoapps/course_creators/models.py:51-99, views.py:9-99, admin.py:67-83,
    common/djangoapps/student/auth.py:113-156, common/djangoapps/student/roles.py:148-172). */
module CourseCreators {
  import opened Text

  type User = nat

  datatype Status = Unrequested | Pending | Granted | Denied

  /** A row of the table; the user is its key. */
  datatype Row = Row(state: Status, stateChanged: int, note: string)

  /** A model instance in memory: `origState` is the state it was created or loaded with, `admin` the staff user
      who is saving it. */
  datatype Instance = Instance(user: User, state: Status, origState: Status, stateChanged: int, note: string,
                               admin: Option<User>)

  /** The database, the notifications sent so far, and how often a row was written. */
  datatype Db = Db(table: map<User, Row>, group: set<User>, userMails: seq<(User, Status)>, adminMails: seq<User>,
                   writes: nat)

  /** Who is a member of the global staff and has an active, authenticated account. */
  datatype People = People(staff: set<User>, active: set<User>)

  datatype Outcome = Done | NoRow | NoAdmin | PermissionDenied

  // ---------- Specification ----------

  predicate HasAuthority(people: People, caller: User) {
    caller in people.active && caller in people.staff
  }

  /** Adding to the group needs authority; removing oneself does not. */
  predicate MayUpdateGroup(people: People, caller: User, user: User, add: bool) {
    HasAuthority(people, caller) || (!add && caller == user)
  }

  /** Users who are not active are not added, and nothing is said about it. */
  function UpdatedGroup(people: People, group: set<User>, user: User, add: bool): set<User> {
    if !add then group - {user} else if user in people.active then group + {user} else group
  }

  datatype Saved = Saved(db: Db, obj: Instance, outcome: Outcome)

  /** The row is written as it is; a new row gets the current time. */
  function Write(db: Db, obj: Instance, now: int): Saved {
    var changed := if obj.user in db.table then obj.stateChanged else now;
    Saved(db.(table := db.table[obj.user := Row(obj.state, changed, obj.note)], writes := db.writes + 1),
          obj.(stateChanged := changed), Done)
  }

  /** The state changes to or from `Granted`. */
  predicate ChangesGrant(obj: Instance) {
    obj.state != obj.origState && (obj.state == Granted || obj.origState == Granted)
  }

  /** What saving an instance comes to, with its save hook. */
  function SaveEffect(people: People, db: Db, obj: Instance, now: int): Saved {
    var written := Write(db, obj, now);
    if obj.state == obj.origState then written
    else if ChangesGrant(obj) && obj.admin.None? then written.(outcome := NoAdmin)
    else if ChangesGrant(obj) && !MayUpdateGroup(people, obj.admin.value, obj.user, obj.state == Granted) then
      written.(outcome := PermissionDenied)
    else
      Saved(Db(db.table[obj.user := Row(obj.state, now, obj.note)],
               if ChangesGrant(obj) then UpdatedGroup(people, db.group, obj.user, obj.state == Granted) else db.group,
               if obj.state == Denied || ChangesGrant(obj) then db.userMails + [(obj.user, obj.state)]
               else db.userMails,
               if obj.state == Pending then db.adminMails + [obj.user] else db.adminMails,
               db.writes + 2),
            obj.(stateChanged := now, origState := obj.state), Done)
  }

  /** The hook comes to the same as the save, once the row is written. */
  lemma {:induction false} WriteComesFirst(people: People, db: Db, obj: Instance, now: int)
    ensures var written := Write(db, obj, now);
      SaveEffect(people, written.db.(writes := db.writes), written.obj, now) == SaveEffect(people, db, obj, now)
  {
  }

  /** An instance as it is loaded from the table. */
  function Loaded(db: Db, user: User): Instance
    requires user in db.table
  {
    var row := db.table[user];
    Instance(user, row.state, row.state, row.stateChanged, row.note, None)
  }

  /** A new instance; its state counts as its original state. */
  function Created(user: User, state: Status, now: int): Instance {
    Instance(user, state, state, now, "", None)
  }

  // ---------- The operations on objects ----------

  class CourseCreator {
    const user: User
    var state: Status
    var origState: Status
    var stateChanged: int
    var note: string
    var admin: Option<User>

    constructor (obj: Instance)
      ensures Value() == obj
    {
      user, state, origState := obj.user, obj.state, obj.origState;
      stateChanged, note, admin := obj.stateChanged, obj.note, obj.admin;
    }

    function Value(): Instance
      reads this
    {
      Instance(user, state, origState, stateChanged, note, admin)
    }
  }

  class Site {
    const people: People
    var table: map<User, Row>
    var group: set<User>
    var userMails: seq<(User, Status)>
    var adminMails: seq<User>
    var writes: nat

    constructor (people: People)
      ensures this.people == people && Value() == Db(map[], {}, [], [], 0)
    {
      this.people := people;
      table, group, userMails, adminMails, writes := map[], {}, [], [], 0;
    }

    function Value(): Db
      reads this
    {
      Db(table, group, userMails, adminMails, writes)
    }

    /** save(): writes the row and runs the save hook, which may save once more. */
    method Save(obj: CourseCreator, now: int) returns (outcome: Outcome)
      modifies this, obj
      ensures SaveEffect(people, old(Value()), old(obj.Value()), now) == Saved(Value(), obj.Value(), outcome)
      decreases obj.state != obj.origState, 1
    {
      WriteComesFirst(people, Value(), obj.Value(), now);
      hide SaveEffect;
      if obj.user !in table {
        obj.stateChanged := now;
      }
      table := table[obj.user := Row(obj.state, obj.stateChanged, obj.note)];
      writes := writes + 1;
      outcome := PostSave(obj, now);
    }

    /** post_save_callback. */
    method PostSave(obj: CourseCreator, now: int) returns (outcome: Outcome)
      requires obj.user in table && table[obj.user] == Row(obj.state, obj.stateChanged, obj.note) && writes >= 1
      modifies this, obj
      ensures SaveEffect(people, old(Value().(writes := writes - 1)), old(obj.Value()), now)
           == Saved(Value(), obj.Value(), outcome)
      decreases obj.state != obj.origState, 0
    {
      if obj.state != obj.origState {
        var grantedStateChange := obj.state == Granted || obj.origState == Granted;
        if grantedStateChange {
          if obj.admin.None? {
            return NoAdmin;
          }
          outcome := UpdateCourseCreatorGroup(obj.admin.value, obj.user, obj.state == Granted);
          if outcome != Done {
            return;
          }
        }
        if obj.state == Denied || grantedStateChange {
          userMails := userMails + [(obj.user, obj.state)];
        }
        if obj.state == Pending {
          adminMails := adminMails + [obj.user];
        }
        obj.stateChanged := now;
        obj.origState := obj.state;
        outcome := Save(obj, now);
      } else {
        outcome := Done;
      }
    }

    method UpdateCourseCreatorGroup(caller: User, user: User, add: bool) returns (outcome: Outcome)
      modifies this`group
      ensures outcome == if MayUpdateGroup(people, caller, user, add) then Done else PermissionDenied
      ensures group == if outcome == Done then UpdatedGroup(people, old(group), user, add) else old(group)
    {
      if add {
        if !HasAuthority(people, caller) {
          return PermissionDenied;
        }
        if user in people.active {
          group := group + {user};
        }
      } else {
        if caller != user && !HasAuthority(people, caller) {
          return PermissionDenied;
        }
        group := group - {user};
      }
      outcome := Done;
    }

    /** _add_user. */
    method AddUser(user: User, state: Status, now: int) returns (added: bool)
      modifies this
      ensures added == (user !in people.staff && user !in old(table))
      ensures Value()
           == if added then SaveEffect(people, old(Value()), Created(user, state, now), now).db else old(Value())
    {
      if user !in people.staff && user !in table {
        var entry := new CourseCreator(Created(user, state, now));
        var outcome := Save(entry, now);
        return true;
      }
      added := false;
    }

    method AddUserWithStatusUnrequested(user: User, now: int)
      modifies this
      ensures (Value(), Done) == Effect(people, old(Value()), AddUnrequested(user), now)
    {
      var _ := AddUser(user, Unrequested, now);
    }

    method AddUserWithStatusGranted(caller: User, user: User, now: int) returns (outcome: Outcome)
      modifies this
      ensures (Value(), outcome) == Effect(people, old(Value()), AddGranted(caller, user), now)
    {
      var added := AddUser(user, Granted, now);
      outcome := Done;
      if added {
        outcome := UpdateCourseCreatorGroup(caller, user, true);
      }
    }

    method UserRequestedAccess(user: User, now: int) returns (outcome: Outcome)
      modifies this
      ensures (Value(), outcome) == Effect(people, old(Value()), RequestAccess(user), now)
    {
      if user !in table {
        return NoRow;
      }
      var creator := new CourseCreator(Loaded(Value(), user));
      if creator.state != Granted {
        creator.state := Pending;
        outcome := Save(creator, now);
      } else {
        outcome := Done;
      }
    }

    /** save_model: the form has set the state and the note of the instance. */
    method SaveModel(requestUser: User, obj: CourseCreator, now: int) returns (outcome: Outcome)
      modifies this, obj
      ensures SaveEffect(people, old(Value()), old(obj.Value()).(admin := Some(requestUser)), now)
           == Saved(Value(), obj.Value(), outcome)
    {
      obj.admin := Some(requestUser);
      outcome := Save(obj, now);
    }

    /** The admin page's change view: loads the row, takes the form's fields and saves. */
    method ChangeView(requestUser: User, user: User, state: Status, note: string, now: int) returns (outcome: Outcome)
      modifies this
      ensures (Value(), outcome) == Effect(people, old(Value()), AdminEdit(requestUser, user, state, note), now)
    {
      if user !in table {
        return NoRow;
      }
      var obj := new CourseCreator(Loaded(Value(), user));
      obj.state, obj.note := state, note;
      outcome := SaveModel(requestUser, obj, now);
    }
  }

  // ---------- Operations as values ----------

  datatype Operation =
    | AddUnrequested(user: User)
    | AddGranted(caller: User, user: User)
    | RequestAccess(user: User)
    | AdminEdit(admin: User, user: User, state: Status, note: string)

  /** What an operation comes to. */
  function Effect(people: People, db: Db, op: Operation, now: int): (Db, Outcome) {
    match op
    case AddUnrequested(user) =>
      if user in people.staff || user in db.table then (db, Done)
      else (SaveEffect(people, db, Created(user, Unrequested, now), now).db, Done)
    case AddGranted(caller, user) =>
      if user in people.staff || user in db.table then (db, Done)
      else
        var added := SaveEffect(people, db, Created(user, Granted, now), now).db;
        if !MayUpdateGroup(people, caller, user, true) then (added, PermissionDenied)
        else (added.(group := UpdatedGroup(people, added.group, user, true)), Done)
    case RequestAccess(user) =>
      if user !in db.table then (db, NoRow)
      else if db.table[user].state == Granted then (db, Done)
      else
        var saved := SaveEffect(people, db, Loaded(db, user).(state := Pending), now);
        (saved.db, saved.outcome)
    case AdminEdit(admin, user, state, note) =>
      if user !in db.table then (db, NoRow)
      else
        var saved := SaveEffect(people, db, Loaded(db, user).(state := state, note := note, admin := Some(admin)), now);
        (saved.db, saved.outcome)
  }

  // ---------- What is left ----------

  /** Whatever instance is saved: its state and note are in the table, also when the hook refuses, and only a hook that
      is not refused sets the time and goes on to the group and the notifications. */
  lemma {:induction false} SaveLeaves(people: People, db: Db, obj: Instance, now: int)
    ensures var Saved(after, left, outcome) := SaveEffect(people, db, obj, now);
      var changed := obj.state != obj.origState;
      var grants := changed && (obj.state == Granted || obj.origState == Granted);
      var time := if obj.user !in db.table || (changed && outcome == Done) then now else obj.stateChanged;
      && after.table == db.table[obj.user := Row(obj.state, time, obj.note)]
      && (outcome == NoAdmin <==> grants && obj.admin.None?)
      && (outcome == PermissionDenied <==>
            grants && obj.admin.Some? && !(obj.admin.value in people.active && obj.admin.value in people.staff)
            && (obj.state == Granted || obj.admin.value != obj.user))
      && outcome != NoRow
      && left == obj.(stateChanged := time, origState := if outcome == Done then obj.state else obj.origState)
      && (!changed || outcome != Done ==> after == db.(table := after.table, writes := db.writes + 1))
      && (changed && outcome == Done ==>
            && after.writes == db.writes + 2
            && (!grants ==> after.group == db.group)
            && after.userMails
               == (if grants || obj.state == Denied then db.userMails + [(obj.user, obj.state)] else db.userMails)
            && after.adminMails == if obj.state == Pending then db.adminMails + [obj.user] else db.adminMails)
  {
  }

  /** Adding leaves a row of that state with an empty note for a user who is not staff and has none, and then nobody is
      notified; whoever is granted becomes a member if active, provided the caller is active and staff. */
  lemma {:induction false} AddingLeaves(people: People, db: Db, caller: User, user: User, now: int)
    ensures var adds := user !in people.staff && user !in db.table;
      var (unrequested, done) := Effect(people, db, AddUnrequested(user), now);
      var (granted, outcome) := Effect(people, db, AddGranted(caller, user), now);
      && done == Done && (!adds ==> unrequested == db && granted == db && outcome == Done)
      && (adds ==>
            && unrequested
               == db.(table := db.table[user := Row(Unrequested, now, "")], writes := db.writes + 1)
            && (outcome == if caller in people.active && caller in people.staff then Done else PermissionDenied)
            && granted
               == db.(table := db.table[user := Row(Granted, now, "")], writes := db.writes + 1,
                      group := if outcome == Done && user in people.active then db.group + {user} else db.group))
  {
  }

  /** A request leaves a granted row as it is, and makes any other one pending, with the note that it had; the
      administrators are told if it was not pending already. */
  lemma {:induction false} RequestLeaves(people: People, db: Db, user: User, now: int)
    ensures var (after, outcome) := Effect(people, db, RequestAccess(user), now);
      if user !in db.table then after == db && outcome == NoRow
      else
        var was := db.table[user];
        && outcome == Done
        && match was.state
          case Granted => after == db
          case Pending => after == db.(writes := db.writes + 1)
          case _ =>
            after == db.(table := db.table[user := Row(Pending, now, was.note)], writes := db.writes + 2,
                         adminMails := db.adminMails + [user])
  {
    if user in db.table {
      assert db.table[user].state == Pending ==> db.table[user := db.table[user]] == db.table;
    }
  }

  /** An edit leaves the state and the note of the form. Where nothing but the note changes there is one write and the
      time stays. A change to or from granted by somebody who may not make it is written all the same, and refused
      after that with the time, the group and the notifications as they were. */
  lemma {:induction false} EditLeaves(people: People, db: Db, admin: User, user: User, state: Status, note: string,
                                      now: int)
    ensures var (after, outcome) := Effect(people, db, AdminEdit(admin, user, state, note), now);
      if user !in db.table then after == db && outcome == NoRow
      else
        var was := db.table[user];
        var once := db.(table := db.table[user := Row(state, was.stateChanged, note)], writes := db.writes + 1);
        var twice := db.(table := db.table[user := Row(state, now, note)], writes := db.writes + 2);
        var staff := admin in people.active && admin in people.staff;
        if state == was.state then after == once && outcome == Done
        else if state == Granted then
          if staff then
            && outcome == Done
            && after == twice.(userMails := db.userMails + [(user, Granted)],
                               group := if user in people.active then db.group + {user} else db.group)
          else after == once && outcome == PermissionDenied
        else if was.state == Granted then
          if staff || admin == user then
            && outcome == Done
            && after == twice.(userMails := db.userMails + [(user, state)], group := db.group - {user},
                               adminMails := if state == Pending then db.adminMails + [user] else db.adminMails)
          else after == once && outcome == PermissionDenied
        else
          && outcome == Done
          && after == twice.(userMails := if state == Denied then db.userMails + [(user, Denied)] else db.userMails,
                             adminMails := if state == Pending then db.adminMails + [user] else db.adminMails)
  {
  }

  // ---------- The group follows the table ----------

  /** A user is in the creator group if and only if the user's row is in state Granted. */
  ghost predicate Consistent(db: Db) {
    forall user :: user in db.group <==> user in db.table && db.table[user].state == Granted
  }

  /** Saving any instance, however long ago it was loaded, keeps the group consistent if and only if the hook updates
      the group, for a user who is active if it adds one, or the user already is or is not a member as the saved state
      says. */
  lemma {:induction false} SaveKeepsConsistentIff(people: People, db: Db, obj: Instance, now: int)
    requires Consistent(db)
    ensures Consistent(SaveEffect(people, db, obj, now).db) <==>
      || (obj.state == Granted && obj.origState != Granted && obj.user in people.active && obj.admin.Some?
          && obj.admin.value in people.active && obj.admin.value in people.staff)
      || (obj.state != Granted && obj.origState == Granted && obj.admin.Some?
          && (obj.admin.value == obj.user || (obj.admin.value in people.active && obj.admin.value in people.staff)))
      || (obj.user in db.group <==> obj.state == Granted)
  {
  }

  /** A stale instance breaks it: loaded while the user was denied, saved with a new note after a grant. */
  lemma {:induction false} StaleInstanceExample(people: People, now: int)
    ensures var db := Db(map[7 := Row(Granted, 0, "")], {7}, [], [], 1);
      var stale := Instance(7, Denied, Denied, 0, "note", Some(1));
      Consistent(db) && !Consistent(SaveEffect(people, db, stale, now).db)
  {
  }

  /** The operation does not need to change the group, or whoever asks for it may do so. */
  predicate Permitted(people: People, db: Db, op: Operation) {
    match op
    case AddUnrequested(_) => true
    case RequestAccess(_) => true
    case AddGranted(caller, user) =>
      user in people.staff || user in db.table || (caller in people.active && caller in people.staff)
    case AdminEdit(admin, user, state, _) =>
      user in db.table && (state == Granted) != (db.table[user].state == Granted) ==>
        (admin in people.active && admin in people.staff) || (state != Granted && admin == user)
  }

  /** An operation that makes a row granted is about an active user. */
  predicate TakesEffect(people: People, db: Db, op: Operation) {
    match op
    case AddUnrequested(_) => true
    case RequestAccess(_) => true
    case AddGranted(_, user) => user in people.staff || user in db.table || user in people.active
    case AdminEdit(_, user, state, _) =>
      user in db.table && state == Granted && db.table[user].state != Granted ==> user in people.active
  }

  /** An operation is refused by no check if and only if it is permitted, and keeps the group consistent if and only
      if it is permitted and, where it makes a row granted, is about an active user. */
  lemma {:induction false} OperationKeepsConsistentIff(people: People, db: Db, op: Operation, now: int)
    requires Consistent(db)
    ensures Consistent(Effect(people, db, op, now).0) <==> Permitted(people, db, op) && TakesEffect(people, db, op)
    ensures Effect(people, db, op, now).1 in {Done, NoRow} <==> Permitted(people, db, op)
  {
  }

  /** A staff user grants the pending request of a user who is not active: no check fails, the row becomes granted,
      the user is notified, and is not in the group. */
  lemma {:induction false} InactiveGrantExample(now: int)
    ensures var people, db := People({1}, {1}), Db(map[7 := Row(Pending, 0, "")], {}, [], [], 1);
      var op := AdminEdit(1, 7, Granted, "");
      var (after, outcome) := Effect(people, db, op, now);
      && Consistent(db) && ByStaff(people, op) && outcome == Done
      && after.table[7].state == Granted && after.userMails == [(7, Granted)] && 7 !in after.group
      && !Consistent(after)
  {
  }

  // ---------- Runs ----------

  /** An operation at a time, with who is staff and who is active then. */
  datatype Timed = Timed(op: Operation, at: int, people: People)

  /** The database after the first n operations. */
  function After(db: Db, ops: seq<Timed>, n: nat): Db
    requires n <= |ops|
  {
    if n == 0 then db
    else Effect(ops[n - 1].people, After(db, ops, n - 1), ops[n - 1].op, ops[n - 1].at).0
  }

  predicate Sound(t: Timed, db: Db) {
    Permitted(t.people, db, t.op) && TakesEffect(t.people, db, t.op)
  }

  /** Through a run, whoever becomes or ceases to be staff or active, the group follows the table all the time if and
      only if each operation is permitted and takes effect when its turn comes. */
  lemma {:induction false} RunKeepsConsistentIff(db: Db, ops: seq<Timed>, n: nat)
    requires Consistent(db) && n <= |ops|
    ensures (forall k :: 0 <= k <= n ==> Consistent(After(db, ops, k)))
       <==> forall k :: 0 <= k < n ==> Sound(ops[k], After(db, ops, k))
  {
    hide Consistent, Sound, Effect;
    if n > 0 {
      RunKeepsConsistentIff(db, ops, n - 1);
      if Consistent(After(db, ops, n - 1)) {
        SoundStep(db, ops, n);
      }
    }
  }

  lemma {:induction false} SoundStep(db: Db, ops: seq<Timed>, n: nat)
    requires 0 < n <= |ops| && Consistent(After(db, ops, n - 1))
    ensures Consistent(After(db, ops, n)) <==> Sound(ops[n - 1], After(db, ops, n - 1))
    ensures Sound(ops[n - 1], After(db, ops, n - 1)) ==>
      Effect(ops[n - 1].people, After(db, ops, n - 1), ops[n - 1].op, ops[n - 1].at).1 in {Done, NoRow}
  {
    hide Consistent, Effect, Permitted, TakesEffect;
    OperationKeepsConsistentIff(ops[n - 1].people, After(db, ops, n - 1), ops[n - 1].op, ops[n - 1].at);
  }

  /** Grants are only asked for, and rows only edited, by staff. */
  predicate ByStaff(people: People, op: Operation) {
    match op
    case AddGranted(caller, _) => caller in people.active && caller in people.staff
    case AdminEdit(admin, _, _, _) => admin in people.active && admin in people.staff
    case _ => true
  }

  /** Grants are only made to active users. */
  predicate ToActive(people: People, op: Operation) {
    match op
    case AddGranted(_, user) => user in people.active
    case AdminEdit(_, user, state, _) => state == Granted ==> user in people.active
    case _ => true
  }

  /** In every run in which grants are made by staff and to active users, the group follows the table and no check
      fails. */
  lemma {:induction false} RunsKeepConsistent(db: Db, ops: seq<Timed>, n: nat)
    requires Consistent(db) && n <= |ops|
    requires forall t :: t in ops ==> ByStaff(t.people, t.op) && ToActive(t.people, t.op)
    ensures Consistent(After(db, ops, n))
    ensures n < |ops| ==> Effect(ops[n].people, After(db, ops, n), ops[n].op, ops[n].at).1 in {Done, NoRow}
  {
    hide Consistent, Effect;
    if n > 0 {
      RunsKeepConsistent(db, ops, n - 1);
      assert ops[n - 1] in ops;
      SoundStep(db, ops, n);
    }
    if n < |ops| {
      assert ops[n] in ops;
      SoundStep(db, ops, n + 1);
    }
  }

  /** What an operation does to the rows and the notifications: only the user's row may change; its time moves,
      a second write happens and notifications go out only when the row's state really changes. */
  lemma {:induction false} OnlyRealChangesShow(people: People, db: Db, op: Operation, now: int)
    requires Consistent(db) && Permitted(people, db, op)
    ensures var after, user := Effect(people, db, op, now).0, op.user;
      && (forall other :: other != user ==> (other in after.table <==> other in db.table))
      && (forall other :: other != user && other in db.table ==> after.table[other] == db.table[other])
      && (user in db.table ==> user in after.table)
      && (user !in db.table ==> after.userMails == db.userMails && after.adminMails == db.adminMails)
      && (user in db.table ==>
            var was, became := db.table[user], after.table[user];
            if was.state == became.state then
              became.stateChanged == was.stateChanged && after.writes <= db.writes + 1
              && after.userMails == db.userMails && after.adminMails == db.adminMails
            else
              became.stateChanged == now && after.writes == db.writes + 2
              && after.userMails == (if became.state == Denied || became.state == Granted || was.state == Granted
                                     then db.userMails + [(user, became.state)] else db.userMails)
              && after.adminMails == if became.state == Pending then db.adminMails + [user] else db.adminMails)
  {
  }
}
