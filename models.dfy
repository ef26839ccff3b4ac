/**
  The entities of the activities system (users, activities, and the
  enrollment relation between them), the validators that run whenever a
  field is assigned, and the constraints the database keeps on its tables.
  `Store` stands for the database session: the two tables, updated in place.
 */
module Models {
  import opened Text

  /** Why a validator refused a value (each raises `ValueError` in the source). */
  datatype ValidationError =
    | InvalidEmailFormat
    | InvalidRole
    | NonPositiveCapacity
    | NameTooShort

  datatype Result<T> = Ok(value: T) | Err(error: ValidationError)

  // ---------------------------------------------------------------------------
  // User.validate_email

  /**
    The language of the pattern `^[^@]+@[^@]+\.[^@]+$` under `re.match`:
    an @-free non-empty local part, the `@`, an @-free non-empty host, a dot,
    and an @-free non-empty tail.
   */
  ghost predicate MatchesEmailPattern(s: string) {
    exists i, j :: EmailSplitAt(s, i, j)
  }

  /** `s` matches the pattern with its `@` at `i` and the dot before the tail at `j`. */
  ghost predicate EmailSplitAt(s: string, i: int, j: int) {
    && 0 < i && i + 1 < j < |s| - 1
    && s[i] == '@' && s[j] == '.'
    && Lacks(s[..i], '@') && Lacks(s[i + 1..j], '@') && Lacks(s[j + 1..], '@')
  }

  /** Position of the first `@`, if any. */
  function FindAt(s: string): (r: Option<nat>)
    ensures r.Some? ==> r.value < |s| && s[r.value] == '@' && Lacks(s[..r.value], '@')
    ensures r.None? ==> Lacks(s, '@')
  {
    if s == [] then None
    else if s[0] == '@' then Some(0)
    else match FindAt(s[1..])
      case None => None
      case Some(i) => Some(i + 1)
  }

  /** The domain has a dot with at least one character on each side. */
  predicate HasInnerDot(domain: string) {
    exists j :: 0 < j < |domain| - 1 && DotAt(domain, j)
  }

  predicate DotAt(s: string, j: int)
    requires 0 <= j < |s|
  {
    s[j] == '.'
  }

  /** The shape check `ValidateEmail` performs: split at the first `@`, then look at both sides. */
  predicate EmailShapeOk(s: string) {
    match FindAt(s)
    case None => false
    case Some(i) => i > 0 && Lacks(s[i + 1..], '@') && HasInnerDot(s[i + 1..])
  }

  /** An `@` with none before it is the one `FindAt` finds. */
  lemma {:induction false} FindAtFirst(s: string, i: nat)
    requires i < |s| && s[i] == '@' && Lacks(s[..i], '@')
    ensures FindAt(s) == Some(i)
  {
    if i > 0 {
      assert s[0] == s[..i][0];
      assert s[1..][..i - 1] == s[..i][1..];
      FindAtFirst(s[1..], i - 1);
    }
  }

  lemma EmailShapeOkIffPattern(s: string)
    ensures EmailShapeOk(s) <==> MatchesEmailPattern(s)
  {
    if EmailShapeOk(s) {
      var i := FindAt(s).value;
      var d := s[i + 1..];
      var k :| 0 < k < |d| - 1 && DotAt(d, k);
      var j := i + 1 + k;
      assert s[i + 1..j] == d[..k];
      assert s[j + 1..] == d[k + 1..];
      assert s[j] == '.';
      assert EmailSplitAt(s, i, j);
    }
    if MatchesEmailPattern(s) {
      var i, j :| EmailSplitAt(s, i, j);
      FindAtFirst(s, i);
      var d := s[i + 1..];
      forall k | 0 <= k < |d| ensures d[k] != '@' {
        if i + 1 + k < j {
          assert d[k] == s[i + 1..j][k];
        } else if i + 1 + k > j {
          assert d[k] == s[j + 1..][k - (j - i)];
        }
      }
      assert DotAt(d, j - (i + 1));
    }
  }

  /**
    `User.validate_email`: accepts exactly the addresses of the pattern and
    stores them lower-cased; anything else raises `ValueError`.
   */
  function ValidateEmail(address: string): (r: Result<string>)
    ensures r.Ok? <==> MatchesEmailPattern(address)
    ensures r.Ok? ==> r.value == Lower(address)
    ensures r.Err? ==> r.error == InvalidEmailFormat
  {
    EmailShapeOkIffPattern(address);
    if EmailShapeOk(address) then Ok(Lower(address)) else Err(InvalidEmailFormat)
  }

  /** Lower-casing never creates or removes an `@`. */
  lemma LowerKeepsNoAt(s: string)
    ensures Lacks(Lower(s), '@') <==> Lacks(s, '@')
  {
    if !Lacks(s, '@') {
      var k :| 0 <= k < |s| && s[k] == '@';
      assert Lower(s)[k] == '@';
    }
  }

  /** The pattern only looks at where the `@`s and the dots are. */
  lemma PatternFollowsSeparators(s: string, t: string)
    requires |s| == |t|
    requires forall k :: 0 <= k < |s| ==> (s[k] == '@' <==> t[k] == '@') && (s[k] == '.' ==> t[k] == '.')
    requires MatchesEmailPattern(s)
    ensures MatchesEmailPattern(t)
  {
    var i, j :| EmailSplitAt(s, i, j);
    assert forall k :: 0 <= k < i ==> s[..i][k] == s[k] && t[..i][k] == t[k];
    assert forall k :: i + 1 <= k < j ==> s[i + 1..j][k - i - 1] == s[k] && t[i + 1..j][k - i - 1] == t[k];
    assert forall k :: j + 1 <= k < |s| ==> s[j + 1..][k - j - 1] == s[k] && t[j + 1..][k - j - 1] == t[k];
    assert t[i] == '@' && t[j] == '.';
    assert EmailSplitAt(t, i, j);
  }

  /** An address matches the pattern exactly when its lower-cased form does. */
  lemma LowerKeepsEmailPattern(s: string)
    ensures MatchesEmailPattern(Lower(s)) <==> MatchesEmailPattern(s)
  {
    var t := Lower(s);
    if MatchesEmailPattern(s) {
      PatternFollowsSeparators(s, t);
    }
    if MatchesEmailPattern(t) {
      PatternFollowsSeparators(t, s);
    }
  }

  /** The address `validate_email` stores validates again to itself. */
  lemma ValidateEmailIdempotent(address: string)
    requires ValidateEmail(address).Ok?
    ensures ValidateEmail(ValidateEmail(address).value) == ValidateEmail(address)
  {
    LowerKeepsEmailPattern(address);
    LowerIsLower(address);
  }

  // ---------------------------------------------------------------------------
  // User.validate_role

  /** The role a user row gets when none is given (column default). */
  const DefaultRole: string := "student"

  /** `User.validate_role`: one of the three roles, returned unchanged. */
  function ValidateRole(role: string): (r: Result<string>)
    ensures r.Ok? <==> role == "student" || role == "teacher" || role == "admin"
    ensures r.Ok? ==> r.value == role
    ensures r == Ok(DefaultRole) <==> role == DefaultRole
  {
    if role in {"student", "teacher", "admin"} then Ok(role) else Err(InvalidRole)
  }

  // ---------------------------------------------------------------------------
  // Activity.validate_max_participants and Activity.validate_name

  /** `Activity.validate_max_participants`: positive capacities pass unchanged. */
  function ValidateMaxParticipants(value: int): (r: Result<int>)
    ensures r.Ok? <==> value > 0
    ensures r.Ok? ==> r.value == value
    ensures r.Err? ==> r.error == NonPositiveCapacity
  {
    if value <= 0 then Err(NonPositiveCapacity) else Ok(value)
  }

  /**
    `Activity.validate_name`: the stripped name, when it has at least three
    characters; what is stored has no whitespace at either end.
   */
  function ValidateName(name: string): (r: Result<string>)
    ensures r.Ok? <==> |Strip(name)| >= 3
    ensures r.Ok? ==> r.value == Strip(name) && IsStripped(r.value) && |r.value| >= 3
    ensures r.Err? ==> r.error == NameTooShort
  {
    var stripped := Strip(name);
    if |stripped| < 3 then Err(NameTooShort) else Ok(stripped)
  }

  /** Validating a stored name again leaves it as it is. */
  lemma ValidateNameIdempotent(name: string)
    requires ValidateName(name).Ok?
    ensures ValidateName(ValidateName(name).value) == ValidateName(name)
  {
    StripStripped(Strip(name));
  }

  // ---------------------------------------------------------------------------
  // Entities

  /** A row of `users`; `email` is its unique key. */
  datatype User = User(email: string, role: string, createdAt: int)

  /**
    A row of `activities` together with its participants: the emails of the
    enrolled users. The relationship has no `order_by`, so the database may
    list them in any order; the model keeps them in the order they were
    appended. The name is the key under which the activity is stored.
   */
  datatype Activity = Activity(
    description: string,
    schedule: string,
    maxParticipants: int,
    createdAt: Option<int>,
    participants: seq<string>)

  /** `Activity.available_spots`: capacity left, negative when over capacity. */
  function AvailableSpots(a: Activity): (r: int)
    ensures r + |a.participants| == a.maxParticipants
    ensures r == a.maxParticipants <==> a.participants == []
  {
    a.maxParticipants - |a.participants|
  }

  /** `Activity.is_full`: no spot is left. */
  predicate IsFull(a: Activity)
    ensures IsFull(a) <==> AvailableSpots(a) <= 0
  {
    |a.participants| >= a.maxParticipants
  }

  /** `activity.participants.append(user)`: one more participant at the end. */
  function WithParticipant(a: Activity, key: string): (r: Activity)
    ensures r == a.(participants := r.participants)
    ensures |r.participants| == |a.participants| + 1
    ensures r.participants[..|a.participants|] == a.participants && r.participants[|a.participants|] == key
    ensures AvailableSpots(r) == AvailableSpots(a) - 1
  {
    a.(participants := a.participants + [key])
  }

  /** The whole database: activities by name, users by email. */
  datatype Db = Db(activities: map<string, Activity>, users: map<string, User>)

  const EmptyDb: Db := Db(map[], map[])

  predicate NoDuplicates(s: seq<string>) {
    forall i, j :: 0 <= i < j < |s| ==> s[i] != s[j]
  }

  /**
    What the tables' keys, foreign keys, CHECK constraints and validators
    keep true of every stored state. `NoDuplicates` is the primary key
    (activity_id, user_id) of `activity_participants`: a user is enrolled
    in an activity at most once.
   */
  ghost predicate Consistent(db: Db)
    ensures Consistent(db) ==>
              forall n, e :: n in db.activities && e in db.activities[n].participants ==> e in db.users && StoredEmail(e)
  {
    && (forall e :: e in db.users ==> UserRowOk(e, db.users[e]))
    && (forall n :: n in db.activities ==> ActivityRowOk(n, db.activities[n], db.users))
  }

  /** A user row: stored under its own email, which is valid and lower-case, with a valid role. */
  ghost predicate UserRowOk(e: string, u: User) {
    && u.email == e
    && StoredEmail(e)
    && u.role in {"student", "teacher", "admin"}
  }

  /** What `validate_email` stores: a matching address with no capital letter. */
  ghost predicate StoredEmail(e: string) {
    IsLower(e) && MatchesEmailPattern(e)
  }

  /** The stored emails are exactly the fixed points of `validate_email`. */
  lemma StoredEmailIffValidated(e: string)
    ensures StoredEmail(e) <==> ValidateEmail(e) == Ok(e)
  {
    LowerIsLower(e);
    if IsLower(e) {
      LowerOfLower(e);
    }
  }

  /** What `validate_name` stores: a stripped name of at least three characters. */
  predicate StoredName(n: string) {
    IsStripped(n) && |n| >= 3
  }

  /** The stored names are exactly the fixed points of `validate_name`. */
  lemma StoredNameIffValidated(n: string)
    ensures StoredName(n) <==> ValidateName(n) == Ok(n)
  {
    if StoredName(n) {
      StripStripped(n);
    }
  }

  /** An activity row and its enrollments, given the user rows. */
  ghost predicate ActivityRowOk(n: string, a: Activity, users: map<string, User>) {
    && StoredName(n)
    && |a.description| >= 10
    && a.maxParticipants > 0
    && NoDuplicates(a.participants)
    && (forall e :: e in a.participants ==> e in users)
  }

  /** No activity holds more participants than its capacity. */
  ghost predicate WithinCapacity(db: Db) {
    forall n :: n in db.activities ==> |db.activities[n].participants| <= db.activities[n].maxParticipants
  }

  /** Appending a user row that exists and is not yet a participant keeps the constraints. */
  lemma EnrollKeepsConsistent(db: Db, name: string, key: string, users: map<string, User>)
    requires Consistent(db) && name in db.activities
    requires key !in db.activities[name].participants && key in users
    requires db.users.Keys <= users.Keys
    requires forall e :: e in users ==> UserRowOk(e, users[e])
    ensures Consistent(Db(db.activities[name := WithParticipant(db.activities[name], key)], users))
  {
    var a := db.activities[name];
    var p := a.participants;
    assert NoDuplicates(p + [key]) by {
      assert forall k :: 0 <= k < |p| ==> (p + [key])[k] == p[k];
    }
    assert ActivityRowOk(name, WithParticipant(a, key), users);
    forall n | n in db.activities && n != name
      ensures ActivityRowOk(n, db.activities[n], users)
    {
      assert ActivityRowOk(n, db.activities[n], db.users);
    }
  }

  // ---------------------------------------------------------------------------
  // Enrollment totals (rows of activity_participants)

  ghost function EnrollmentsIn(acts: map<string, Activity>, names: set<string>): nat
    requires names <= acts.Keys
    decreases names
  {
    if names == {} then 0
    else
      var n :| n in names;
      |acts[n].participants| + EnrollmentsIn(acts, names - {n})
  }

  /** Number of enrollments over all activities. */
  ghost function TotalEnrollments(acts: map<string, Activity>): nat {
    EnrollmentsIn(acts, acts.Keys)
  }

  /** Any activity can be taken out of the sum first. */
  lemma {:induction false} EnrollmentsInSplit(acts: map<string, Activity>, names: set<string>, n: string)
    requires names <= acts.Keys && n in names
    ensures EnrollmentsIn(acts, names) == |acts[n].participants| + EnrollmentsIn(acts, names - {n})
    decreases names
  {
    var m :| m in names && EnrollmentsIn(acts, names) == |acts[m].participants| + EnrollmentsIn(acts, names - {m});
    if m != n {
      EnrollmentsInSplit(acts, names - {m}, n);
      assert names - {m} - {n} == names - {n} - {m};
      EnrollmentsInSplit(acts, names - {n}, m);
    }
  }

  /** The sum depends only on the participant counts of the named activities. */
  lemma {:induction false} EnrollmentsInSameCounts(a: map<string, Activity>, b: map<string, Activity>, names: set<string>)
    requires names <= a.Keys && names <= b.Keys
    requires forall n :: n in names ==> |a[n].participants| == |b[n].participants|
    ensures EnrollmentsIn(a, names) == EnrollmentsIn(b, names)
    decreases names
  {
    if names != {} {
      var n :| n in names;
      EnrollmentsInSplit(a, names, n);
      EnrollmentsInSplit(b, names, n);
      EnrollmentsInSameCounts(a, b, names - {n});
    }
  }

  /** Replacing one activity changes the total by the change in its participant count. */
  lemma EnrollmentsAfterUpdate(acts: map<string, Activity>, n: string, a: Activity)
    requires n in acts
    ensures TotalEnrollments(acts[n := a])
         == TotalEnrollments(acts) - |acts[n].participants| + |a.participants|
  {
    var acts' := acts[n := a];
    assert acts'.Keys == acts.Keys;
    EnrollmentsInSplit(acts, acts.Keys, n);
    EnrollmentsInSplit(acts', acts.Keys, n);
    EnrollmentsInSameCounts(acts, acts', acts.Keys - {n});
  }

  /** When every activity has `c` participants the total is `c` times the number of activities. */
  lemma {:induction false} EnrollmentsUniform(acts: map<string, Activity>, names: set<string>, c: nat)
    requires names <= acts.Keys
    requires forall n :: n in names ==> |acts[n].participants| == c
    ensures EnrollmentsIn(acts, names) == c * |names|
    decreases names
  {
    if names != {} {
      var n :| n in names;
      EnrollmentsInSplit(acts, names, n);
      EnrollmentsUniform(acts, names - {n}, c);
    }
  }

  // ---------------------------------------------------------------------------
  // The database session

  /**
    The two tables as the request handlers see them through their session;
    every handler reads and replaces these maps in place.
   */
  class Store {
    var activities: map<string, Activity>
    var users: map<string, User>

    function State(): Db
      reads this
    {
      Db(activities, users)
    }

    /** The tables meet their constraints and no activity is over capacity. */
    ghost predicate Valid()
      reads this
    {
      Consistent(State()) && WithinCapacity(State())
    }

    /** `init_database` on a new database file: both tables exist and are empty. */
    constructor ()
      ensures State() == EmptyDb
      ensures Valid()
    {
      activities := map[];
      users := map[];
    }
  }
}
