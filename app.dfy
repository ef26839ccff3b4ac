/**
  The request handlers of the activities API: the listing, signup and
  unregister. Each handler is a method on the store; its effect is stated by
  a function from the database before the request to the outcome and the
  database after it. A rejected request leaves the database as it was
  (nothing is committed, the session rolls back).
 */
module App {
  import opened Text
  import opened Models
  import opened Database

  /** How a request ends; every case but `Success` is an error response. */
  datatype Outcome =
    | Success
    | ActivityNotFound
    | ActivityFull
    | InvalidEmail        // ValueError from validate_email, caught by no handler
    | IntegrityViolation  // IntegrityError at flush: the stored email already exists
    | AlreadySignedUp
    | NotSignedUp

  /** The HTTP status each outcome is reported with. */
  function StatusCode(o: Outcome): (code: int)
    ensures code == 200 <==> o == Success
    ensures code == 404 <==> o == ActivityNotFound
    ensures code == 500 <==> o == InvalidEmail
    ensures code == 400 <==> o in {ActivityFull, IntegrityViolation, AlreadySignedUp, NotSignedUp}
  {
    match o
    case Success => 200
    case ActivityNotFound => 404
    case ActivityFull => 400
    case IntegrityViolation => 400
    case AlreadySignedUp => 400
    case NotSignedUp => 400
    case InvalidEmail => 500
  }

  // ---------------------------------------------------------------------------
  // get_activities

  /** What the listing shows of one activity. */
  datatype ActivityView = ActivityView(
    description: string,
    schedule: string,
    maxParticipants: int,
    participants: seq<string>,
    availableSpots: int,
    isFull: bool)

  /** The entry of one activity: its fields, with the spots left and `is_full` computed from them. */
  function View(a: Activity): (v: ActivityView)
    ensures v.description == a.description && v.schedule == a.schedule
    ensures v.maxParticipants == a.maxParticipants && v.participants == a.participants
    ensures v.availableSpots + |v.participants| == v.maxParticipants
    ensures v.isFull <==> v.availableSpots <= 0
  {
    ActivityView(a.description, a.schedule, a.maxParticipants, a.participants, AvailableSpots(a), IsFull(a))
  }

  /**
    `get_activities`: one entry per activity name, showing the participants'
    emails, the capacity, the spots left and whether it is full.
   */
  method GetActivities(store: Store) returns (listing: map<string, ActivityView>)
    ensures listing.Keys == store.activities.Keys
    ensures forall n :: n in listing ==>
              var a := store.activities[n];
              && listing[n].participants == a.participants
              && listing[n].maxParticipants == a.maxParticipants
              && listing[n].description == a.description
              && listing[n].schedule == a.schedule
              && listing[n].availableSpots == a.maxParticipants - |a.participants|
              && (listing[n].isFull <==> |a.participants| >= a.maxParticipants)
  {
    listing := map[];
    var todo := store.activities.Keys;
    while todo != {}
      invariant todo <= store.activities.Keys
      invariant listing.Keys == store.activities.Keys - todo
      invariant forall n :: n in listing ==> listing[n] == View(store.activities[n])
      decreases todo
    {
      var n :| n in todo;
      listing := listing[n := View(store.activities[n])];
      todo := todo - {n};
    }
  }

  // ---------------------------------------------------------------------------
  // signup_for_activity

  /** The outcome of "get or create the user" for a raw email. */
  datatype UserLookup =
    | Found(key: string)    // a user row has exactly this email
    | Create(key: string)   // none has: a row with the validated email is added
    | Invalid               // the email fails validation
    | Clash                 // the validated (lower-cased) email is already taken

  /**
    The user lookup of a signup: by the exact email given, and only when that
    finds nothing, a new row whose email is the lower-cased address.
   */
  function ResolveUser(users: map<string, User>, email: string): (r: UserLookup)
    ensures r.Found? <==> email in users
    ensures r.Found? ==> r.key == email
    ensures r.Invalid? <==> email !in users && !MatchesEmailPattern(email)
    ensures r.Clash? <==> email !in users && MatchesEmailPattern(email) && Lower(email) in users
    ensures r.Create? ==> email !in users && MatchesEmailPattern(email) && r.key == Lower(email) && r.key !in users
  {
    if email in users then Found(email)
    else match ValidateEmail(email)
      case Err(_) => Invalid
      case Ok(stored) => if stored in users then Clash else Create(stored)
  }

  /** The key of the user a successful signup enrolls. */
  function SignupKey(users: map<string, User>, email: string): string {
    if email in users then email else Lower(email)
  }

  /**
    `signup_for_activity`, checked in this order: the activity must exist,
    must not be full, the user is found or created, must not be enrolled yet;
    then the user is appended to the participants.
   */
  function Signup(db: Db, name: string, email: string, now: int): (r: (Outcome, Db))
    ensures r.0 != Success ==> r.1 == db
    ensures r.0 == ActivityNotFound <==> name !in db.activities
    ensures r.0 == ActivityFull <==> name in db.activities && IsFull(db.activities[name])
    ensures r.0 == InvalidEmail <==>
              && name in db.activities && !IsFull(db.activities[name])
              && email !in db.users && !MatchesEmailPattern(email)
    ensures r.0 == IntegrityViolation <==>
              && name in db.activities && !IsFull(db.activities[name])
              && email !in db.users && MatchesEmailPattern(email) && Lower(email) in db.users
    ensures r.0 in {Success, ActivityNotFound, ActivityFull, InvalidEmail, IntegrityViolation, AlreadySignedUp}
    ensures r.0 == AlreadySignedUp <==>
              && name in db.activities && !IsFull(db.activities[name])
              && (email in db.users || (MatchesEmailPattern(email) && Lower(email) !in db.users))
              && SignupKey(db.users, email) in db.activities[name].participants
    ensures r.0 == Success ==>
              && name in db.activities && !IsFull(db.activities[name])
              && var key := SignupKey(db.users, email);
              && key !in db.activities[name].participants
              && r.1.activities == db.activities[name := WithParticipant(db.activities[name], key)]
              && r.1.users == (if email in db.users then db.users
                               else db.users[key := User(key, DefaultRole, now)])
              && |r.1.activities[name].participants| <= r.1.activities[name].maxParticipants
  {
    if name !in db.activities then (ActivityNotFound, db)
    else
      var activity := db.activities[name];
      if IsFull(activity) then (ActivityFull, db)
      else
        var lookup := ResolveUser(db.users, email);
        match lookup
        case Invalid => (InvalidEmail, db)
        case Clash => (IntegrityViolation, db)
        case _ =>
          var key := lookup.key;
          if key in activity.participants then (AlreadySignedUp, db)
          else
            var users := if lookup.Create? then db.users[key := User(key, DefaultRole, now)] else db.users;
            (Success, Db(db.activities[name := WithParticipant(activity, key)], users))
  }

  /** `signup_for_activity` on the store. */
  method SignupForActivity(store: Store, name: string, email: string, now: int) returns (outcome: Outcome)
    modifies store
    ensures (outcome, store.State()) == Signup(old(store.State()), name, email, now)
    ensures old(store.Valid()) ==> store.Valid()
  {
    if store.Valid() {
      SignupKeepsInvariants(store.State(), name, email, now);
    }
    if name !in store.activities {
      return ActivityNotFound;
    }
    var activity := store.activities[name];
    if IsFull(activity) {
      return ActivityFull;
    }
    var key: string;
    var created := false;
    if email in store.users {
      key := email;
    } else {
      var validated := ValidateEmail(email);
      if validated.Err? {
        return InvalidEmail;
      }
      key := validated.value;
      if key in store.users {
        return IntegrityViolation;
      }
      created := true;
    }
    if key in activity.participants {
      return AlreadySignedUp;
    }
    if created {
      store.users := store.users[key := User(key, DefaultRole, now)];
    }
    store.activities := store.activities[name := WithParticipant(activity, key)];
    outcome := Success;
  }

  // ---------------------------------------------------------------------------
  // unregister_from_activity

  /** Position of the first occurrence of `x`. */
  function IndexOf(s: seq<string>, x: string): (i: nat)
    requires x in s
    ensures i < |s| && s[i] == x && x !in s[..i]
  {
    if s[0] == x then 0 else 1 + IndexOf(s[1..], x)
  }

  /** `list.remove`: drop the first occurrence of `x`. */
  function RemoveFirst(s: seq<string>, x: string): (r: seq<string>)
    requires x in s
    ensures |r| == |s| - 1
  {
    var i := IndexOf(s, x);
    s[..i] + s[i + 1..]
  }

  /** Removing what was just appended gives back the original list. */
  lemma RemoveFirstAppended(s: seq<string>, x: string)
    requires x !in s
    ensures RemoveFirst(s + [x], x) == s
  {
    var t := s + [x];
    assert forall k :: 0 <= k < |s| ==> t[k] == s[k];
    assert IndexOf(t, x) == |s|;
    assert t[..|s|] == s;
  }

  /** Where each element of the shortened list came from. */
  lemma RemoveFirstIndex(s: seq<string>, x: string) returns (i: nat)
    requires x in s
    ensures i < |s| && s[i] == x && x !in s[..i]
    ensures forall a :: 0 <= a < i ==> RemoveFirst(s, x)[a] == s[a]
    ensures forall a :: i <= a < |s| - 1 ==> RemoveFirst(s, x)[a] == s[a + 1]
  {
    i := IndexOf(s, x);
  }

  /** In a list without duplicates, removal takes out exactly `x`. */
  lemma RemoveFirstNoDuplicates(s: seq<string>, x: string)
    requires x in s && NoDuplicates(s)
    ensures NoDuplicates(RemoveFirst(s, x))
    ensures forall y :: y in RemoveFirst(s, x) <==> y in s && y != x
  {
    var r := RemoveFirst(s, x);
    var i := RemoveFirstIndex(s, x);
    forall a, b | 0 <= a < b < |r| ensures r[a] != r[b] {
      var a' := if a < i then a else a + 1;
      var b' := if b < i then b else b + 1;
      assert r[a] == s[a'] && r[b] == s[b'];
    }
    forall y | y in s && y != x ensures y in r {
      var k :| 0 <= k < |s| && s[k] == y;
      if k < i { assert r[k] == y; } else { assert r[k - 1] == y; }
    }
    forall y | y in r ensures y in s && y != x {
      var k :| 0 <= k < |r| && r[k] == y;
      var k' := if k < i then k else k + 1;
      assert s[k'] == y && k' != i;
    }
  }

  /**
    `unregister_from_activity`: the activity must exist, the user must exist
    and be a participant; then the user is removed from the participants.
   */
  function Unregister(db: Db, name: string, email: string): (r: (Outcome, Db))
    ensures r.0 in {Success, ActivityNotFound, NotSignedUp}
    ensures r.0 != Success ==> r.1 == db
    ensures r.0 == ActivityNotFound <==> name !in db.activities
    ensures r.0 == Success <==>
              name in db.activities && email in db.users && email in db.activities[name].participants
    ensures r.0 == Success ==>
              && r.1.users == db.users
              && r.1.activities.Keys == db.activities.Keys
              && (forall n :: n in db.activities && n != name ==> r.1.activities[n] == db.activities[n])
              && r.1.activities[name] == db.activities[name].(participants := RemoveFirst(db.activities[name].participants, email))
  {
    if name !in db.activities then (ActivityNotFound, db)
    else
      var activity := db.activities[name];
      if email !in db.users || email !in activity.participants then (NotSignedUp, db)
      else
        var activity' := activity.(participants := RemoveFirst(activity.participants, email));
        (Success, db.(activities := db.activities[name := activity']))
  }

  /** `unregister_from_activity` on the store. */
  method UnregisterFromActivity(store: Store, name: string, email: string) returns (outcome: Outcome)
    modifies store
    ensures (outcome, store.State()) == Unregister(old(store.State()), name, email)
    ensures old(store.Valid()) ==> store.Valid()
  {
    if store.Valid() {
      UnregisterKeepsInvariants(store.State(), name, email);
    }
    if name !in store.activities {
      return ActivityNotFound;
    }
    var activity := store.activities[name];
    if email !in store.users || email !in activity.participants {
      return NotSignedUp;
    }
    store.activities := store.activities[name := activity.(participants := RemoveFirst(activity.participants, email))];
    outcome := Success;
  }

  // ---------------------------------------------------------------------------
  // Properties of the two transitions

  /** A signup keeps every table constraint, and no activity goes over capacity. */
  lemma SignupKeepsInvariants(db: Db, name: string, email: string, now: int)
    requires Consistent(db)
    ensures Consistent(Signup(db, name, email, now).1)
    ensures WithinCapacity(db) ==> WithinCapacity(Signup(db, name, email, now).1)
  {
    var r := Signup(db, name, email, now);
    if r.0 == Success {
      var key := SignupKey(db.users, email);
      if email !in db.users {
        LowerKeepsEmailPattern(email);
        LowerIsLower(email);
        assert UserRowOk(key, User(key, DefaultRole, now));
      }
      EnrollKeepsConsistent(db, name, key, r.1.users);
    }
  }

  /** Under the constraints, "already signed up" means exactly: that user row exists and is a participant. */
  lemma SignupAlreadySignedUpIff(db: Db, name: string, email: string, now: int)
    requires Consistent(db)
    ensures Signup(db, name, email, now).0 == AlreadySignedUp <==>
              && name in db.activities && !IsFull(db.activities[name])
              && email in db.users && email in db.activities[name].participants
  {
    if name in db.activities && email !in db.users && Lower(email) !in db.users {
      assert Lower(email) !in db.activities[name].participants;
    }
  }

  /** A successful signup adds exactly one enrollment. */
  lemma SignupAddsOneEnrollment(db: Db, name: string, email: string, now: int)
    requires Signup(db, name, email, now).0 == Success
    ensures TotalEnrollments(Signup(db, name, email, now).1.activities) == TotalEnrollments(db.activities) + 1
  {
    var key := SignupKey(db.users, email);
    EnrollmentsAfterUpdate(db.activities, name, WithParticipant(db.activities[name], key));
  }

  /**
    Unregistering right after a successful signup restores every activity's
    participants; a user row created by the signup stays. This needs the
    email to be the stored one: an existing user's, or already lower-case.
   */
  lemma SignupThenUnregister(db: Db, name: string, email: string, now: int)
    requires Signup(db, name, email, now).0 == Success
    requires email in db.users || IsLower(email)
    ensures var after := Signup(db, name, email, now).1;
            Unregister(after, name, email) == (Success, Db(db.activities, after.users))
  {
    var after := Signup(db, name, email, now).1;
    if email !in db.users {
      LowerOfLower(email);
    }
    var a := db.activities[name];
    RemoveFirstAppended(a.participants, email);
    assert after.activities[name := WithParticipant(a, email).(participants := a.participants)] == db.activities;
  }

  /**
    Signing up the same (stored) email again is refused: the activity is
    full by now, or else the user is already signed up; nothing changes.
   */
  lemma SignupTwice(db: Db, name: string, email: string, now: int, later: int)
    requires Signup(db, name, email, now).0 == Success
    requires email in db.users || IsLower(email)
    ensures var after := Signup(db, name, email, now).1;
            Signup(after, name, email, later)
              == (if IsFull(after.activities[name]) then ActivityFull else AlreadySignedUp, after)
  {
    if email !in db.users {
      LowerOfLower(email);
    }
  }

  /**
    The lookup uses the email as given but the new row stores it lower-cased:
    after a first signup with a capitalised address that matches no row, the
    same address no longer finds its user. Unregistering it reports "not
    signed up", and signing it up again fails on the unique email (when the
    activity is not full by then).
   */
  lemma SignupWithCapitals(db: Db, name: string, email: string, now: int, later: int)
    requires email !in db.users && !IsLower(email)
    requires Signup(db, name, email, now).0 == Success
    ensures var after := Signup(db, name, email, now).1;
            && Lower(email) in after.users && email !in after.users
            && Unregister(after, name, email) == (NotSignedUp, after)
            && Signup(after, name, email, later)
                 == (if IsFull(after.activities[name]) then ActivityFull else IntegrityViolation, after)
  {
    LowerChanges(email);
  }

  /** An unregister keeps every table constraint and the capacity bound. */
  lemma UnregisterKeepsInvariants(db: Db, name: string, email: string)
    requires Consistent(db)
    ensures Consistent(Unregister(db, name, email).1)
    ensures WithinCapacity(db) ==> WithinCapacity(Unregister(db, name, email).1)
  {
    var r := Unregister(db, name, email);
    if r.0 == Success {
      RemoveFirstNoDuplicates(db.activities[name].participants, email);
    }
  }

  /** A successful unregister removes exactly one enrollment, and the user is no longer a participant. */
  lemma UnregisterRemovesOneEnrollment(db: Db, name: string, email: string)
    requires Consistent(db)
    requires Unregister(db, name, email).0 == Success
    ensures var after := Unregister(db, name, email).1;
            && TotalEnrollments(after.activities) == TotalEnrollments(db.activities) - 1
            && email !in after.activities[name].participants
  {
    var a := db.activities[name];
    RemoveFirstNoDuplicates(a.participants, email);
    EnrollmentsAfterUpdate(db.activities, name, a.(participants := RemoveFirst(a.participants, email)));
  }

  /**
    A stored address that is not yet a participant of an open activity signs
    up: the outcome is success and the address is appended.
   */
  lemma SignupNewcomer(db: Db, name: string, email: string, now: int)
    requires name in db.activities && !IsFull(db.activities[name])
    requires StoredEmail(email) && email !in db.activities[name].participants
    ensures var r := Signup(db, name, email, now);
            && r.0 == Success
            && r.1.activities[name].participants == db.activities[name].participants + [email]
  {
    LowerOfLower(email);
  }
}
